/**
 How results of `chaseat()` and `chase()` fit into the host's own pathname resolution, and where they differ from
 section 4.13 of POSIX.1-2017 (XBD).
 */
module ChasePosix {
  import opened Wrappers
  import opened PathUtil
  import opened FileSystem
  import opened Chase
  import opened ChaseRuns
  import opened ChaseReplay
  import opened Resolver

  // ---------- the result as a path of the host ----------

  /** Resolution of names that lead on without symlinks is a literal walk; `tail` is what comes after. */
  lemma {:induction false} WalkResolves(
    v: View, nofollow: bool, cur: Place, names: seq<string>, tail: string, ino: Ino, limit: nat)
    requires AllNames(names) && Skipped(tail) && Walk(v.fs, cur.ino, names) == Some(ino)
    requires names != [] && IsSymlink(v.fs, ino) ==> nofollow && tail == ""
    ensures Resolve(v, nofollow, cur, Joined(names, tail), limit)
         == Resolve(v, nofollow, Place(ino, cur.names + names), tail, limit)
    decreases |names|
  {
    if names == [] {
      assert cur.names + names == cur.names;
    } else {
      var k := |names| - 1;
      var x := names[k];
      WalkPrefix(v.fs, cur.ino, names, k);
      var d := Walk(v.fs, cur.ino, names[..k]).value;
      var mid := Place(d, cur.names + names[..k]);
      assert names[..k + 1] == names && names == names[..k] + [x] && mid.names + [x] == cur.names + names;
      hide Resolve, FindFirstComponent, Joined, Skipped, Walk, IsName;
      LastName(x, tail);
      JoinedSnoc(names[..k], x, tail);
      WalkResolves(v, nofollow, cur, names[..k], Joined([x], tail), d, limit);
      LookUpChild(v, mid, x, ino, !(nofollow && tail == ""));
      Unfold(v, nofollow, mid, Joined([x], tail), limit);
    }
  }

  lemma LastName(x: string, tail: string)
    requires IsName(x) && Skipped(tail)
    ensures var t := Joined([x], tail);
      x != "" && Skipped(t) && t != "" && FindFirstComponent(t, true) == Component(t, x, tail)
  {
    hide FindFirstComponent;
    assert [x] + [] == [x] && Joined([], tail) == tail;
    JoinedSkipped([x], tail);
    LexJoined(x, [], tail, true);
  }

  lemma LookUpChild(v: View, cur: Place, name: string, ino: Ino, follow: bool)
    requires IsName(name) && Child(v.fs, cur.ino, name) == Some(ino) && !(IsSymlink(v.fs, ino) && follow)
    ensures LookUp(v, cur, name, follow) == Leads(Place(ino, cur.names + [name]))
  {
  }

  /** The end of `chase()`: a relative result is put behind the root directory. */
  function InHost(c: Config, root: string, p: string): string
  {
    if c.Absolute() then p else PathExtend(root, if p == "." then "" else p)
  }

  function Host(c: Config): View { View(c.fs, c.fs.root, false) }

  /** The way from the host's root to the base: nothing, or what `root` resolves to, symlinks included. */
  ghost predicate RootLeads(c: Config, root: string, at: Place, links: nat)
  {
    if c.Absolute() then at == Place(c.fs.root, []) && links == 0
    else at.ino == c.base && Reaches(Host(c), false, root, at, links)
  }

  lemma RootIno(c: Config, root: string, at: Place, links: nat)
    requires RootLeads(c, root, at, links)
    ensures at.ino == c.base
  {
  }

  /** A result, as the names under the base that it is made of and what follows them. */
  ghost predicate SpelledAs(c: Config, p: string, names: seq<string>, tail: string)
  {
    && AllNames(names) && Skipped(tail)
    && p == if names == [] && tail == "" then DonePath(c, [])
            else (if c.Absolute() then "/" else "") + Joined(names, tail)
  }

  lemma BehindRoot(
    c: Config, root: string, at: Place, links: nat, nofollow: bool, p: string, names: seq<string>, tail: string,
    r: Resolution)
    requires RootLeads(c, root, at, links) && SpelledAs(c, p, names, tail)
    requires (names == [] && tail == "" ==> !nofollow) && r != TooMany
    requires forall limit: nat :: Resolve(Host(c), nofollow, at, Joined(names, tail), limit) == r
    ensures Ends(Host(c), nofollow, InHost(c, root, p), AddLinks(links, r))
  {
    var v, body := Host(c), Joined(names, tail);
    NamesAreComponents(names);
    JoinedSkipped(names, tail);
    SpelledBody(c, p, names, tail);
    hide Resolve, Joined, Skipped, PathExtend, FindFirstComponent, SpelledAs, DonePath;
    if c.Absolute() {
      assert Resolve(v, nofollow, at, body, 0) == r;
      LexSkips(body, true);
      Unfold(v, nofollow, at, "/" + body, 0);
      Unfold(v, nofollow, at, body, 0);
      assert Resolve(v, nofollow, Start(v), InHost(c, root, p), 0) == r;
      NoLinksAdded(r);
    } else {
      var limit: nat :| Resolve(v, false, Start(v), root, limit) == Found(at, links);
      ResolveConcat(v, nofollow, Start(v), root, body, limit);
      assert Resolve(v, nofollow, Start(v), PathExtend(root, body), limit) == AddLinks(links, r);
    }
  }

  lemma SpelledBody(c: Config, p: string, names: seq<string>, tail: string)
    requires SpelledAs(c, p, names, tail)
    ensures c.Absolute() ==> p == "/" + Joined(names, tail)
    ensures !c.Absolute() ==> (if p == "." then "" else p) == Joined(names, tail)
    ensures Joined(names, tail) == "" <==> names == [] && tail == ""
  {
    NamesAreComponents(names);
    JoinedSkipped(names, tail);
    if names != [] || tail != "" { assert "" + Joined(names, tail) == Joined(names, tail); }
  }

  lemma SpelledMeaning(c: Config, p: string, names: seq<string>, tail: string)
    requires SpelledAs(c, p, names, tail)
    ensures Components(p) == names + Components(tail)
  {
    NamesAreComponents(names);
    ComponentsSingle(".");
    ComponentsSingle("");
    hide Components, Joined;
    JoinedMeaning(names, tail);
    if c.Absolute() {
      ComponentsSlash("", Joined(names, tail));
      assert "" + "/" + Joined(names, tail) == "/" + Joined(names, tail);
      assert [] + Components(Joined(names, tail)) == Components(Joined(names, tail));
      SpelledBody(c, p, names, tail);
    } else {
      assert "" + Joined(names, tail) == Joined(names, tail);
      if names == [] && tail == "" { assert names + Components(tail) == []; }
    }
  }

  lemma JoinedMeaning(names: seq<string>, tail: string)
    requires AllComponents(names) && Skipped(tail)
    ensures Components(Joined(names, tail)) == names + Components(tail)
  {
    RenderExtend(false, names, tail);
    RenderMeaning(false, names);
    hide Components, Joined, Skipped;
    ExtendMeaning(Render(false, names), tail);
    assert "" + Joined(names, tail) == Joined(names, tail);
  }

  lemma NoLinksAdded(r: Resolution)
    ensures AddLinks(0, r) == r
  {
  }

  /** What a finished call has found, or has found missing. */
  lemma FinishSpelled(c: Config, s: State)
    requires Inv(c, s) && NextMove(c, s).Finish?
    ensures var m := NextMove(c, s);
      if m.present then SpelledAs(c, m.path, s.done, "")
      else
        var l := FindFirstComponent(s.todo, true);
        && l.Component? && IsName(l.name) && Skipped(l.rest)
        && IsDir(c.fs, s.fd) && Child(c.fs, s.fd, l.name) == None
        && SpelledAs(c, m.path, s.done + [l.name], l.rest)
  {
    FinishForm(c, s);
    VettedNames(c, s.done);
    hide NextMove, FindFirstComponent, PathIsSafe, Components, PathExtend, Skipped, Walk, Vetted, Render, Joined, Child;
    if NextMove(c, s).present {
      SkippedNothing();
      RenderIs(c.Absolute(), s.done);
    } else {
      var l := FindFirstComponent(s.todo, true);
      RenderSnoc(c.Absolute(), s.done, l.name);
      RenderExtend(c.Absolute(), s.done + [l.name], l.rest);
    }
  }

  lemma SkippedNothing()
    ensures Skipped("")
  {
  }

  lemma RenderIs(absolute: bool, names: seq<string>)
    ensures Render(absolute, names) == (if absolute then "/" else "") + Joined(names, "")
  {
  }

  /**
   The path that `chase()` returns, resolved by the host, leads to the inode that was found, following no symlink
   but those in `root`; or for a missing one to the directory that lacks it.
   */
  lemma ResultInHost(c: Config, path: string, root: string, at: Place, links: nat)
    requires c.Valid() && Run(c, Init(c, path)).Resolved? && RootLeads(c, root, at, links)
    ensures var r := Run(c, Init(c, path));
      var host := InHost(c, root, r.path);
      var names := Components(r.path);
      && (r.present ==>
            Reaches(Host(c), c.flags.nofollow && names != [], host, Place(r.fd, at.names + names), links))
      && (!r.present ==> exists done, name, rest | names == done + [name] + Components(rest) ::
            Ends(Host(c), c.flags.nofollow, host, Missing(Place(r.fd, at.names + done), name, rest)))
  {
    hide Run, Resolve, Inv, NextMove, FindFirstComponent, RootLeads, Ends, SpelledAs, InHost, Joined, Skipped,
      Components;
    var r := Run(c, Init(c, path));
    var s := LastState(c, path);
    FinishSpelled(c, s);
    DoneWalks(c, s);
    RootIno(c, root, at, links);
    if r.present {
      FoundInHost(c, s, root, at, links, r.path);
      SpelledMeaning(c, r.path, s.done, "");
      ComponentsSingle("");
      assert s.done + [] == s.done;
    } else {
      var l := FindFirstComponent(s.todo, true);
      MissingInHost(c, s, root, at, links, r.path, l.name, l.rest);
      SpelledMeaning(c, r.path, s.done + [l.name], l.rest);
    }
  }

  lemma DoneWalks(c: Config, s: State)
    requires Inv(c, s)
    ensures AllNames(s.done) && Walk(c.fs, c.base, s.done) == Some(s.fd) && IsDir(c.fs, c.base)
    ensures IsSymlink(c.fs, s.fd) ==> c.flags.nofollow
  {
    VettedNames(c, s.done);
  }

  lemma FoundInHost(c: Config, s: State, root: string, at: Place, links: nat, p: string)
    requires Inv(c, s) && RootLeads(c, root, at, links) && SpelledAs(c, p, s.done, "")
    ensures Reaches(Host(c), c.flags.nofollow && s.done != [], InHost(c, root, p),
                    Place(s.fd, at.names + s.done), links)
  {
    hide Inv, RootLeads, SpelledAs, InHost, Resolve, Joined, Walk;
    DoneWalks(c, s);
    RootIno(c, root, at, links);
    var nofollow, to := c.flags.nofollow && s.done != [], Place(s.fd, at.names + s.done);
    forall limit: nat ensures Resolve(Host(c), nofollow, at, Joined(s.done, ""), limit) == Found(to, 0) {
      WalkResolves(Host(c), nofollow, at, s.done, "", s.fd, limit);
      Unfold(Host(c), nofollow, to, "", limit);
      LexDot();
    }
    BehindRoot(c, root, at, links, nofollow, p, s.done, "", Found(to, 0));
  }

  lemma MissingInHost(
    c: Config, s: State, root: string, at: Place, links: nat, p: string, name: string, rest: string)
    requires Inv(c, s) && RootLeads(c, root, at, links) && SpelledAs(c, p, s.done + [name], rest)
    requires IsName(name) && Skipped(rest) && IsDir(c.fs, s.fd) && Child(c.fs, s.fd, name) == None
    ensures Ends(Host(c), c.flags.nofollow, InHost(c, root, p), Missing(Place(s.fd, at.names + s.done), name, rest))
  {
    hide Inv, RootLeads, SpelledAs, InHost, Resolve, Joined, Walk, Skipped, FindFirstComponent, IsName;
    DoneWalks(c, s);
    RootIno(c, root, at, links);
    var r := Missing(Place(s.fd, at.names + s.done), name, rest);
    LastName(name, rest);
    JoinedSnoc(s.done, name, rest);
    forall limit: nat ensures Resolve(Host(c), c.flags.nofollow, at, Joined(s.done + [name], rest), limit) == r {
      WalkResolves(Host(c), c.flags.nofollow, at, s.done, Joined([name], rest), s.fd, limit);
      Unfold(Host(c), c.flags.nofollow, r.at, Joined([name], rest), limit);
      LookUpMissing(Host(c), r.at, name);
    }
    BehindRoot(c, root, at, links, c.flags.nofollow, p, s.done + [name], rest, r);
  }

  lemma LookUpMissing(v: View, cur: Place, name: string)
    requires IsName(name) && IsDir(v.fs, cur.ino) && Child(v.fs, cur.ino, name) == None
    ensures forall follow :: LookUp(v, cur, name, follow) == Absent
  {
  }

  // ---------- differences from the standard ----------

  /** The standard refuses the empty path; here it is the base directory. */
  lemma EmptyIsBase(c: Config)
    ensures Run(c, Init(c, "")) == Run(c, Init(c, ".")) == Resolved(DonePath(c, []), c.base, true)
  {
    LexDot();
    hide FindFirstComponent;
  }

  lemma SameEnter(c: Config, s: State, first: string, rest: string, rest': string)
    requires Components(rest) == Components(rest') && (rest == "" <==> rest' == "") && !c.flags.nonexistent
    ensures SimilarMoves(Enter(c, s, first, rest), Enter(c, s, first, rest'))
  {
    hide Components, PathIsSafe, Render, PathExtend;
    var child := Child(c.fs, s.fd, first);
    if child.Some? && IsSymlink(c.fs, child.value) {
      ExtendMeaning(Node(c.fs, child.value).kind.target, rest);
      ExtendMeaning(Node(c.fs, child.value).kind.target, rest');
    }
  }

  /** The same move, up to how what is left to do is written. */
  ghost predicate SimilarMoves(m: Move, m': Move)
  {
    if m.Descend? || m.Rewrite? then
      && m.Descend? == m'.Descend? && m.Rewrite? == m'.Rewrite?
      && m'.next == m.next.(todo := m'.next.todo) && Components(m.next.todo) == Components(m'.next.todo)
    else m == m'
  }

  lemma MoveByComponents(c: Config, s: State, todo: string)
    requires Components(s.todo) == Components(todo) && !c.flags.nonexistent
    ensures SimilarMoves(NextMove(c, s), NextMove(c, s.(todo := todo)))
  {
    FirstComponentMeaning(s.todo, true);
    FirstComponentMeaning(todo, true);
    hide FindFirstComponent, Enter, DotDot, Components;
    var l, l' := FindFirstComponent(s.todo, true), FindFirstComponent(todo, true);
    if l.Component? && l'.Component? {
      assert Components(s.todo)[1..] == Components(l.rest) && Components(todo)[1..] == Components(l'.rest);
      if l.name == ".." {
        SameDotDot(c, s, l.rest, l'.rest);
      } else {
        EnterIgnoresTodo(c, s, todo, l.name, l'.rest);
        SameEnter(c, s, l.name, l.rest, l'.rest);
      }
    }
  }

  lemma SameDotDot(c: Config, s: State, rest: string, rest': string)
    requires Components(rest) == Components(rest')
    ensures SimilarMoves(DotDot(c, s.(todo := rest)), DotDot(c, s.(todo := rest')))
  {
    hide Components, Render;
  }

  /** A call that returns no unresolved rest sees of a path its components only. */
  lemma {:induction false} OnlyComponentsMatter(c: Config, s: State, todo: string)
    requires Components(s.todo) == Components(todo) && !c.flags.nonexistent && !c.flags.step
    ensures Run(c, s) == Run(c, s.(todo := todo))
    decreases s.follow, |s.todo|
  {
    hide NextMove, Components;
    MoveByComponents(c, s, todo);
    MoveDecreases(c, s);
    var m, m' := NextMove(c, s), NextMove(c, s.(todo := todo));
    if m.Descend? || m.Rewrite? {
      OnlyComponentsMatter(c, m.next, m'.next.todo);
    }
  }

  /**
   The standard demands a directory before a trailing slash or "/.", and follows a symlink there; here it is ignored.
   */
  lemma TrailingSlashIsIgnored(c: Config, path: string)
    requires !c.flags.nonexistent && !c.flags.step
    ensures Run(c, Init(c, path + "/")) == Run(c, Init(c, path)) == Run(c, Init(c, path + "/."))
  {
    ComponentsSingle("");
    ComponentsSingle(".");
    ComponentsSlash(path, "");
    ComponentsSlash(path, ".");
    assert path + "/" + "" == path + "/" && path + "/" + "." == path + "/.";
    hide Components, Run;
    var s := Init(c, path);
    assert Components(s.todo) == Components(path + "/") == Components(path + "/.");
    OnlyComponentsMatter(c, s, path + "/");
    OnlyComponentsMatter(c, s, path + "/.");
  }

  /** Where the standard has ENAMETOOLONG, a component longer than NAME_MAX is invalid. */
  lemma OverlongIsInvalid(c: Config, path: string)
    requires Components(path) != [] && |Components(path)[0]| > NAME_MAX
    ensures Run(c, Init(c, path)) == Failed(EINVAL)
  {
    ComponentsSingle("");
    FirstComponentMeaning(path, true);
    hide FindFirstComponent, Components;
  }

  // ---------- resolution by the standard ----------

  /** A path, or a symlink's target, that is to lead to a directory. */
  predicate DemandsDirectory(p: string)
  {
    p != "" && (p[|p| - 1] == '/' || (|p| >= 2 && p[|p| - 2..] == "/."))
  }

  /**
   Resolution as section 4.13 has it: `must` says that the path demands a directory, and makes a final symlink
   followed; a target may demand one too, and must not be empty; an overlong component has its own error.
   */
  function Strict(v: View, nofollow: bool, must: bool, cur: Place, path: string, limit: nat): (r: Resolution)
    ensures r.Found? ==> r.links <= limit
    decreases limit, |path|
  {
    match FindFirstComponent(path, true)
    case NoComponent => if must && !IsDir(v.fs, cur.ino) then Broken(ENOTDIR) else Found(cur, 0)
    case BadComponent => Broken(ENAMETOOLONG)
    case Component(_, name, rest) =>
      match LookUp(v, cur, name, !(nofollow && rest == "" && !must))
      case Fails(e) => Broken(e)
      case Absent => Missing(cur, name, rest)
      case Crashes => Crashed
      case Leads(to) => Strict(v, nofollow, must, to, rest, limit)
      case Points(target) =>
        if limit == 0 then TooMany
        else if target == "" then Broken(ENOENT)
        else
          match Strict(v, false, DemandsDirectory(target), LinkStart(v, cur, target), target, limit - 1)
          case Found(mid, n) => AddLinks(1 + n, Strict(v, nofollow, must, mid, rest, limit - 1 - n))
          case Missing(at, missing, left) => Missing(at, missing, PathExtend(left, rest))
          case failure => failure
  }

  function LinkStart(v: View, cur: Place, target: string): Place
  {
    if target != "" && target[0] == '/' then Start(v) else cur
  }

  /** What is not followed is the last name of the path itself, under NOFOLLOW. */
  predicate KeptLink(v: View, nofollow: bool, must: bool, r: Resolution)
  {
    nofollow && must && r.Found? && IsSymlink(v.fs, r.at.ino)
  }

  /**
   All that can be different: the code finds something that is no directory, where the standard demands one; or it
   says EINVAL, where the standard has another error.
   */
  predicate Differs(v: View, nofollow: bool, must: bool, strict: Resolution, r: Resolution)
  {
    || (r.Found? && !IsDir(v.fs, r.at.ino) && (strict == Broken(ENOTDIR) || KeptLink(v, nofollow, must, r)))
    || (r == Broken(EINVAL) && strict in {Broken(ENAMETOOLONG), Broken(ENOENT), Broken(ENOTDIR)})
  }

  predicate Related(v: View, nofollow: bool, must: bool, strict: Resolution, r: Resolution)
  {
    strict == r || Differs(v, nofollow, must, strict, r)
  }

  lemma UnfoldStrict(v: View, nofollow: bool, must: bool, cur: Place, path: string, limit: nat)
    ensures Strict(v, nofollow, must, cur, path, limit) ==
      match FindFirstComponent(path, true)
      case NoComponent => if must && !IsDir(v.fs, cur.ino) then Broken(ENOTDIR) else Found(cur, 0)
      case BadComponent => Broken(ENAMETOOLONG)
      case Component(_, name, rest) =>
        match LookUp(v, cur, name, !(nofollow && rest == "" && !must))
        case Fails(e) => Broken(e)
        case Absent => Missing(cur, name, rest)
        case Crashes => Crashed
        case Leads(to) => Strict(v, nofollow, must, to, rest, limit)
        case Points(target) =>
          if limit == 0 then TooMany
          else if target == "" then Broken(ENOENT)
          else
            StrictSequence(v, nofollow, must,
              Strict(v, false, DemandsDirectory(target), LinkStart(v, cur, target), target, limit - 1), rest, limit - 1)
  {
    hide FindFirstComponent, LookUp, PathExtend, DemandsDirectory;
  }

  /** After a link has been followed by `first`, the rest. */
  function StrictSequence(
    v: View, nofollow: bool, must: bool, first: Resolution, rest: string, limit: nat): Resolution
    requires first.Found? ==> first.links <= limit
  {
    match first
    case Found(mid, n) => AddLinks(1 + n, Strict(v, nofollow, must, mid, rest, limit - n))
    case Missing(at, missing, left) => Missing(at, missing, PathExtend(left, rest))
    case failure => failure
  }

  /** What comes after something that is no directory cannot be found. */
  lemma BehindNoDirectory(v: View, nofollow: bool, mid: Place, rest: string, limit: nat)
    requires !IsDir(v.fs, mid.ino)
    ensures Resolve(v, nofollow, mid, rest, limit) in {Found(mid, 0), Broken(ENOTDIR), Broken(EINVAL)}
  {
    Unfold(v, nofollow, mid, rest, limit);
    hide FindFirstComponent, Resolve;
  }

  lemma KeptIsNoDirectory(v: View, cur: Place, name: string, rest: string, limit: nat)
    requires FindFirstComponent(rest, true).NoComponent?
    requires LookUp(v, cur, name, true).Points?
    ensures LookUp(v, cur, name, false).Leads?
    ensures var to := LookUp(v, cur, name, false).to;
      && IsSymlink(v.fs, to.ino) && !IsDir(v.fs, to.ino)
      && Resolve(v, true, to, rest, limit) == Found(to, 0)
  {
    Unfold(v, true, LookUp(v, cur, name, false).to, rest, limit);
    hide FindFirstComponent, Resolve;
  }

  /** What the code makes of a path and what the standard does: they agree, or differ in one of the ways above. */
  lemma {:induction false} StrictRelated(
    v: View, nofollow: bool, must: bool, cur: Place, path: string, limit: nat)
    ensures Related(v, nofollow, must,
                    Strict(v, nofollow, must, cur, path, limit), Resolve(v, nofollow, cur, path, limit))
    decreases limit, |path|
  {
    hide FindFirstComponent, LookUp, PathExtend, DemandsDirectory, Resolve, Strict;
    Unfold(v, nofollow, cur, path, limit);
    UnfoldStrict(v, nofollow, must, cur, path, limit);
    var l := FindFirstComponent(path, true);
    if l.Component? {
      if nofollow && l.rest == "" && must {
        LastComponent(v, cur, l.name, limit);
      }
      match LookUp(v, cur, l.name, !(nofollow && l.rest == ""))
      case Leads(to) => StrictRelated(v, nofollow, must, to, l.rest, limit);
      case Points(target) =>
        if limit != 0 && target != "" {
          LinkRelated(v, nofollow, must, LinkStart(v, cur, target), target, l.rest, limit);
        }
      case _ =>
    }
  }

  lemma LastComponent(v: View, cur: Place, name: string, limit: nat)
    ensures LookUp(v, cur, name, true) == LookUp(v, cur, name, false) ||
      (LookUp(v, cur, name, true).Points? && LookUp(v, cur, name, false).Leads?
       && var to := LookUp(v, cur, name, false).to;
          IsSymlink(v.fs, to.ino) && !IsDir(v.fs, to.ino) && Resolve(v, true, to, "", limit) == Found(to, 0))
  {
    LexDot();
    if LookUp(v, cur, name, true).Points? { KeptIsNoDirectory(v, cur, name, "", limit); }
    hide Resolve, FindFirstComponent;
  }

  lemma LinkRelated(v: View, nofollow: bool, must: bool, start: Place, target: string, rest: string, limit: nat)
    requires limit > 0
    ensures Related(v, nofollow, must,
      StrictSequence(v, nofollow, must, Strict(v, false, DemandsDirectory(target), start, target, limit - 1),
                     rest, limit - 1),
      Sequence(v, nofollow, AddLinks(1, Resolve(v, false, start, target, limit - 1)), rest, limit))
    decreases limit, 0
  {
    hide FindFirstComponent, LookUp, PathExtend, DemandsDirectory, Resolve, Strict, Related;
    StrictRelated(v, false, DemandsDirectory(target), start, target, limit - 1);
    var strict := Strict(v, false, DemandsDirectory(target), start, target, limit - 1);
    var inner := Resolve(v, false, start, target, limit - 1);
    if inner.Found? {
      var left := limit - 1 - inner.links;
      StrictRelated(v, nofollow, must, inner.at, rest, left);
      MoreLinks(v, nofollow, must, Strict(v, nofollow, must, inner.at, rest, left),
                Resolve(v, nofollow, inner.at, rest, left), 1 + inner.links);
    }
    if strict != inner { DifferentLink(v, nofollow, must, DemandsDirectory(target), strict, inner, rest, limit); }
    SameLink(v, nofollow, must, inner, rest, limit);
  }

  lemma MoreLinks(v: View, nofollow: bool, must: bool, strict: Resolution, r: Resolution, n: nat)
    requires Related(v, nofollow, must, strict, r)
    ensures Related(v, nofollow, must, AddLinks(n, strict), AddLinks(n, r))
  {
  }

  /** A link that both follow to the same place. */
  lemma SameLink(v: View, nofollow: bool, must: bool, inner: Resolution, rest: string, limit: nat)
    requires limit > 0 && (inner.Found? ==> inner.links <= limit - 1)
    requires inner.Found? ==>
      var left := limit - 1 - inner.links;
      Related(v, nofollow, must, AddLinks(1 + inner.links, Strict(v, nofollow, must, inner.at, rest, left)),
              AddLinks(1 + inner.links, Resolve(v, nofollow, inner.at, rest, left)))
    ensures Related(v, nofollow, must, StrictSequence(v, nofollow, must, inner, rest, limit - 1),
                    Sequence(v, nofollow, AddLinks(1, inner), rest, limit))
  {
    hide PathExtend, Resolve, Strict, Differs;
  }

  /** A link that they do not. */
  lemma DifferentLink(
    v: View, nofollow: bool, must: bool, demand: bool, strict: Resolution, inner: Resolution, rest: string, limit: nat)
    requires limit > 0 && (inner.Found? ==> inner.links <= limit - 1) && (strict.Found? ==> strict.links <= limit - 1)
    requires strict != inner && Related(v, false, demand, strict, inner)
    ensures Related(v, nofollow, must, StrictSequence(v, nofollow, must, strict, rest, limit - 1),
                    Sequence(v, nofollow, AddLinks(1, inner), rest, limit))
  {
    hide PathExtend, Resolve, Strict;
    if inner.Found? { BehindNoDirectory(v, nofollow, inner.at, rest, limit - 1 - inner.links); }
  }

  /** The errors of the code's resolution. */
  lemma {:induction false} CodeErrors(v: View, nofollow: bool, cur: Place, path: string, limit: nat)
    ensures var r := Resolve(v, nofollow, cur, path, limit); r.Broken? ==> r.errno == EINVAL || r.errno == ENOTDIR
    decreases limit, |path|
  {
    hide FindFirstComponent, PathExtend, Resolve, LookUp;
    Unfold(v, nofollow, cur, path, limit);
    var l := FindFirstComponent(path, true);
    if l.Component? {
      var follow := !(nofollow && l.rest == "");
      LookUpErrors(v, cur, l.name, follow);
      match LookUp(v, cur, l.name, follow)
      case Leads(to) => CodeErrors(v, nofollow, to, l.rest, limit);
      case Points(target) =>
        if limit != 0 && target != "" {
          var start := if target[0] == '/' then Start(v) else cur;
          CodeErrors(v, false, start, target, limit - 1);
          var inner := Resolve(v, false, start, target, limit - 1);
          if inner.Found? { CodeErrors(v, nofollow, inner.at, l.rest, limit - 1 - inner.links); }
        }
      case _ =>
    }
  }

  lemma LookUpErrors(v: View, cur: Place, name: string, follow: bool)
    ensures LookUp(v, cur, name, follow).Fails? ==> LookUp(v, cur, name, follow).errno == ENOTDIR
  {
  }

  /** What demands a directory finds nothing else. */
  lemma {:induction false} DemandIsMet(v: View, nofollow: bool, cur: Place, path: string, limit: nat)
    ensures var r := Strict(v, nofollow, true, cur, path, limit); r.Found? ==> IsDir(v.fs, r.at.ino)
    ensures forall must :: Strict(v, nofollow, must, cur, path, limit) != Broken(EINVAL)
    decreases limit, |path|
  {
    hide FindFirstComponent, PathExtend, Strict, LookUp, DemandsDirectory;
    var l := FindFirstComponent(path, true);
    forall must
      ensures var r := Strict(v, nofollow, must, cur, path, limit);
        r != Broken(EINVAL) && (must && r.Found? ==> IsDir(v.fs, r.at.ino))
    {
      UnfoldStrict(v, nofollow, must, cur, path, limit);
      if l.Component? {
        var follow := !(nofollow && l.rest == "" && !must);
        LookUpErrors(v, cur, l.name, follow);
        match LookUp(v, cur, l.name, follow)
        case Leads(to) => DemandIsMet(v, nofollow, to, l.rest, limit);
        case Points(target) =>
          if limit != 0 && target != "" {
            var start := LinkStart(v, cur, target);
            DemandIsMet(v, false, start, target, limit - 1);
            var inner := Strict(v, false, DemandsDirectory(target), start, target, limit - 1);
            if inner.Found? { DemandIsMet(v, nofollow, inner.at, l.rest, limit - 1 - inner.links); }
          }
        case _ =>
      }
    }
  }

  // ---------- when both agree ----------

  /** Nothing that resolution meets is a point of difference: no overlong component, and no such target. */
  predicate Ordinary(v: View, nofollow: bool, cur: Place, path: string, limit: nat)
    decreases limit, |path|
  {
    var l := FindFirstComponent(path, true);
    !l.BadComponent? &&
    (l.Component? ==>
      match LookUp(v, cur, l.name, !(nofollow && l.rest == ""))
      case Leads(to) => Ordinary(v, nofollow, to, l.rest, limit)
      case Points(target) =>
        limit > 0 ==>
          && target != "" && !DemandsDirectory(target)
          && Ordinary(v, false, LinkStart(v, cur, target), target, limit - 1)
          && var inner := Resolve(v, false, LinkStart(v, cur, target), target, limit - 1);
             (inner.Found? ==> Ordinary(v, nofollow, inner.at, l.rest, limit - 1 - inner.links))
      case _ => true)
  }

  /** Then the code resolves as the standard does. */
  lemma {:induction false} OrdinaryAgrees(v: View, nofollow: bool, cur: Place, path: string, limit: nat)
    requires Ordinary(v, nofollow, cur, path, limit)
    ensures Strict(v, nofollow, false, cur, path, limit) == Resolve(v, nofollow, cur, path, limit)
    decreases limit, |path|
  {
    hide FindFirstComponent, PathExtend, Resolve, Strict, LookUp, DemandsDirectory;
    Unfold(v, nofollow, cur, path, limit);
    UnfoldStrict(v, nofollow, false, cur, path, limit);
    var l := FindFirstComponent(path, true);
    if l.Component? {
      match LookUp(v, cur, l.name, !(nofollow && l.rest == ""))
      case Leads(to) => OrdinaryAgrees(v, nofollow, to, l.rest, limit);
      case Points(target) =>
        if limit > 0 {
          var start := LinkStart(v, cur, target);
          OrdinaryAgrees(v, false, start, target, limit - 1);
          var inner := Resolve(v, false, start, target, limit - 1);
          if inner.Found? { OrdinaryAgrees(v, nofollow, inner.at, l.rest, limit - 1 - inner.links); }
        }
      case _ =>
    }
  }

  predicate AllShort(names: seq<string>)
  {
    forall x | x in names :: |x| <= NAME_MAX
  }

  /** Every symlink of the file system has a target that is no point of difference. */
  ghost predicate OrdinaryTargets(fs: Fs)
  {
    forall i | IsSymlink(fs, i) ::
      var t := Node(fs, i).kind.target; t != "" && !DemandsDirectory(t) && AllShort(Components(t))
  }

  /** A condition on the file system and the path alone. */
  lemma {:induction false} OrdinaryEverywhere(v: View, nofollow: bool, cur: Place, path: string, limit: nat)
    requires OrdinaryTargets(v.fs) && AllShort(Components(path))
    ensures Ordinary(v, nofollow, cur, path, limit)
    decreases limit, |path|
  {
    FirstComponentMeaning(path, true);
    hide FindFirstComponent, PathExtend, Resolve, LookUp, DemandsDirectory, Components;
    var l := FindFirstComponent(path, true);
    assert Components(path) != [] ==> Components(path)[0] in Components(path);
    if l.Component? {
      assert forall x | x in Components(l.rest) :: x in Components(path);
      var follow := !(nofollow && l.rest == "");
      match LookUp(v, cur, l.name, follow)
      case Leads(to) => OrdinaryEverywhere(v, nofollow, to, l.rest, limit);
      case Points(target) =>
        if limit > 0 {
          TargetOfLink(v, cur, l.name, follow);
          var start := LinkStart(v, cur, target);
          OrdinaryEverywhere(v, false, start, target, limit - 1);
          var inner := Resolve(v, false, start, target, limit - 1);
          if inner.Found? { OrdinaryEverywhere(v, nofollow, inner.at, l.rest, limit - 1 - inner.links); }
        }
      case _ =>
    }
  }

  lemma TargetOfLink(v: View, cur: Place, name: string, follow: bool)
    requires LookUp(v, cur, name, follow).Points? && OrdinaryTargets(v.fs)
    ensures var t := LookUp(v, cur, name, follow).target;
      t != "" && !DemandsDirectory(t) && AllShort(Components(t))
  {
    hide DemandsDirectory, Components;
    var link := Child(v.fs, cur.ino, name).value;
    assert IsSymlink(v.fs, link);
  }

  // ---------- chaseat() and the standard ----------

  /** What the standard makes of a path; the limit of symlinks is the code's. */
  function ByStandard(c: Config, path: string): Resolution
  {
    if path == "" then Broken(ENOENT)
    else
      var v := Plainly(c);
      Strict(v, c.flags.nofollow, DemandsDirectory(path), Start(v), path, CHASE_MAX - 1)
  }

  /**
   For every path that is not empty: unless an assertion fires, `chaseat()` has the verdict of the standard, or else
   it has found something that is no directory, or says EINVAL. EINVAL is never the standard's verdict.
   */
  lemma ChaseAndStandard(c: Config, path: string)
    requires c.Valid() && c.Plain() && !c.flags.step && path != ""
    ensures var o, strict := Run(c, Init(c, path)), ByStandard(c, path);
      && (o == Aborted || SameVerdict(c, strict, o)
          || (o.Resolved? && o.present && !IsDir(c.fs, o.fd)
              && (strict == Broken(ENOTDIR) || (IsSymlink(c.fs, o.fd) && c.flags.nofollow && DemandsDirectory(path))))
          || (o == Failed(EINVAL) && strict in {Broken(ENAMETOOLONG), Broken(ENOENT), Broken(ENOTDIR)}))
      && (o == Failed(EINVAL) ==> !SameVerdict(c, strict, o))
  {
    hide Run, Resolve, Strict, DemandsDirectory, DonePath, MissingOutcome;
    var v := Plainly(c);
    ChaseRefinesResolution(c, path);
    StrictRelated(v, c.flags.nofollow, DemandsDirectory(path), Start(v), path, CHASE_MAX - 1);
    DemandIsMet(v, c.flags.nofollow, Start(v), path, CHASE_MAX - 1);
    NotInvalid(c, ByStandard(c, path));
  }

  lemma NotInvalid(c: Config, r: Resolution)
    requires r != Broken(EINVAL)
    ensures !SameVerdict(c, r, Failed(EINVAL))
  {
  }

  /** Where the standard meets an overlong component or an empty target, the code has EINVAL. */
  lemma OverlongOrEmptyIsInvalid(c: Config, path: string)
    requires c.Valid() && c.Plain() && !c.flags.step && path != "" && !(c.flags.nofollow && DemandsDirectory(path))
    requires ByStandard(c, path) in {Broken(ENAMETOOLONG), Broken(ENOENT)}
    ensures Run(c, Init(c, path)) in {Failed(EINVAL), Aborted}
  {
    hide Run, Resolve, Strict, DemandsDirectory, DonePath, MissingOutcome;
    var v := Plainly(c);
    ChaseRefinesResolution(c, path);
    StrictRelated(v, c.flags.nofollow, DemandsDirectory(path), Start(v), path, CHASE_MAX - 1);
    CodeErrors(v, c.flags.nofollow, Start(v), path, CHASE_MAX - 1);
  }

  /** A directory that is returned is the one that the standard reaches. */
  lemma DirectoriesAgree(c: Config, path: string)
    requires c.Valid() && c.Plain() && !c.flags.step && path != ""
    requires var o := Run(c, Init(c, path)); o.Resolved? && o.present && IsDir(c.fs, o.fd)
    ensures ByStandard(c, path).Found? && SameVerdict(c, ByStandard(c, path), Run(c, Init(c, path)))
  {
    hide Run, ByStandard, DonePath;
    ChaseAndStandard(c, path);
    FoundOnly(c, ByStandard(c, path), Run(c, Init(c, path)));
  }

  lemma FoundOnly(c: Config, r: Resolution, o: Outcome)
    requires SameVerdict(c, r, o) && o.Resolved? && o.present
    ensures r.Found?
  {
  }

  /** And where no point of difference is met, every verdict is the standard's. */
  lemma ChaseIsStandard(c: Config, path: string)
    requires c.Valid() && c.Plain() && !c.flags.step && path != "" && !DemandsDirectory(path)
    requires Ordinary(Plainly(c), c.flags.nofollow, Start(Plainly(c)), path, CHASE_MAX - 1)
    ensures Run(c, Init(c, path)) == Aborted || SameVerdict(c, ByStandard(c, path), Run(c, Init(c, path)))
  {
    hide Run, Resolve, Strict, DemandsDirectory, Ordinary, SameVerdict;
    ChaseRefinesResolution(c, path);
    OrdinaryAgrees(Plainly(c), c.flags.nofollow, Start(Plainly(c)), path, CHASE_MAX - 1);
  }

  /** "file/" and "link/" under CHASE_NOFOLLOW return what the standard never finds. */
  lemma SlashBehindFile(c: Config, path: string)
    requires !c.flags.nonexistent && !c.flags.step
    requires var o := Run(c, Init(c, path)); o.Resolved? && o.present && !IsDir(c.fs, o.fd)
    ensures var o := Run(c, Init(c, path + "/"));
      o == Run(c, Init(c, path)) && !SameVerdict(c, ByStandard(c, path + "/"), o)
  {
    hide Run, Strict, DonePath, MissingOutcome;
    TrailingSlashIsIgnored(c, path);
    assert DemandsDirectory(path + "/");
    DemandIsMet(Plainly(c), c.flags.nofollow, Start(Plainly(c)), path + "/", CHASE_MAX - 1);
    if SameVerdict(c, ByStandard(c, path + "/"), Run(c, Init(c, path + "/"))) {
      FoundOnly(c, ByStandard(c, path + "/"), Run(c, Init(c, path + "/")));
      assert false;
    }
  }
}
