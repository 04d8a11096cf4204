/**
 An unchanging file system: a tree of inodes as `openat`, `fstat` and `readlinkat` see it.

 The accessors are total; an inode number that is not in the table reads as an empty regular file.
 */
module FileSystem {
  import opened Wrappers
  import opened PathUtil

  type Ino = nat

  datatype Kind =
    | Directory(entries: map<string, Ino>, parent: Ino)
    | Regular
    | Symlink(target: string)

  datatype Inode = Inode(uid: nat, autofs: bool, kind: Kind)

  datatype Fs = Fs(root: Ino, inodes: map<Ino, Inode>)

  function Node(fs: Fs, i: Ino): Inode
  {
    if i in fs.inodes then fs.inodes[i] else Inode(0, false, Regular)
  }

  predicate IsDir(fs: Fs, i: Ino) { Node(fs, i).kind.Directory? }

  predicate IsSymlink(fs: Fs, i: Ino) { Node(fs, i).kind.Symlink? }

  function Uid(fs: Fs, i: Ino): nat { Node(fs, i).uid }

  function Parent(fs: Fs, i: Ino): Ino
    requires IsDir(fs, i)
  {
    Node(fs, i).kind.parent
  }

  /** Looks one name up without following a symlink. */
  function Child(fs: Fs, d: Ino, name: string): Option<Ino>
  {
    if IsDir(fs, d) && name in Node(fs, d).kind.entries then Some(Node(fs, d).kind.entries[name]) else None
  }

  /** Every entry has a legal name, the root is nobody's entry, and a directory is entered from its parent only. */
  ghost predicate EntryOk(fs: Fs, d: Ino, name: string)
  {
    var c := Child(fs, d, name);
    c.Some? ==> IsName(name) && c.value != fs.root && (IsDir(fs, c.value) ==> Parent(fs, c.value) == d)
  }

  ghost predicate Ranked(fs: Fs, depth: Ino -> nat)
  {
    forall d: Ino, name: string ::
      var c := Child(fs, d, name);
      c.Some? && IsDir(fs, c.value) ==> depth(d) < depth(c.value)
  }

  ghost predicate WellFormed(fs: Fs)
  {
    && IsDir(fs, fs.root) && Parent(fs, fs.root) == fs.root
    && (forall d: Ino, name: string :: EntryOk(fs, d, name))
    && (forall d: Ino :: IsDir(fs, d) ==> IsDir(fs, Parent(fs, d)))
    && exists depth :: Ranked(fs, depth)
  }

  /** Walks `names` downwards from `base`, literally: no symlink is followed, no ".." taken. */
  function Walk(fs: Fs, base: Ino, names: seq<string>): Option<Ino>
  {
    if names == [] then Some(base)
    else
      var k := |names| - 1;
      match Walk(fs, base, names[..k])
      case None => None
      case Some(d) => Child(fs, d, names[k])
  }

  /** `i` is `base` or lies below it. */
  ghost predicate Below(fs: Fs, base: Ino, i: Ino)
  {
    exists names :: Walk(fs, base, names) == Some(i)
  }

  lemma WalkSnoc(fs: Fs, base: Ino, names: seq<string>, x: string)
    requires Walk(fs, base, names).Some?
    ensures Walk(fs, base, names + [x]) == Child(fs, Walk(fs, base, names).value, x)
  {
    assert (names + [x])[..|names|] == names;
  }

  /** All proper prefixes of a path that can be walked lead to directories. */
  lemma WalkPrefix(fs: Fs, base: Ino, names: seq<string>, k: nat)
    requires Walk(fs, base, names).Some? && k <= |names|
    ensures Walk(fs, base, names[..k]).Some?
    ensures k < |names| ==>
      var d := Walk(fs, base, names[..k]).value;
      IsDir(fs, d) && Walk(fs, base, names[..k + 1]) == Child(fs, d, names[k])
    decreases |names|
  {
    if k < |names| {
      var m := |names| - 1;
      if k < m {
        WalkPrefix(fs, base, names[..m], k);
        assert names[..m][..k] == names[..k] && names[..m][..k + 1] == names[..k + 1];
      } else {
        assert names[..k + 1] == names;
      }
    } else {
      assert names[..k] == names;
    }
  }

  /** Walking down never comes back to the root or to where it started. */
  lemma WalkLeaves(fs: Fs, base: Ino, names: seq<string>)
    requires WellFormed(fs) && IsDir(fs, base) && names != []
    requires Walk(fs, base, names).Some?
    ensures Walk(fs, base, names).value != fs.root
    ensures Walk(fs, base, names).value != base
    ensures IsName(names[|names| - 1])
  {
    var k := |names| - 1;
    var d := Walk(fs, base, names[..k]).value;
    assert EntryOk(fs, d, names[k]);
    var depth :| Ranked(fs, depth);
    if IsDir(fs, Walk(fs, base, names).value) {
      WalkDeeper(fs, depth, base, names);
    }
  }

  lemma WalkDeeper(fs: Fs, depth: Ino -> nat, base: Ino, names: seq<string>)
    requires Ranked(fs, depth) && Walk(fs, base, names).Some?
    requires IsDir(fs, Walk(fs, base, names).value)
    ensures depth(base) + |names| <= depth(Walk(fs, base, names).value)
  {
    if names != [] {
      WalkDeeper(fs, depth, base, names[..|names| - 1]);
    }
  }
}
