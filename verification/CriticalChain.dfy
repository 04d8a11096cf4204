/**
 The critical-chain walk of `systemd-analyze` (src/analyze/analyze-critical-chain.c): a depth-first walk
 over the ordering dependencies of units, in which cycles are possible.
 */
module CriticalChain {
  import opened Wrappers

  /**
   What the walk reads: the After= list of a unit (absent if it cannot be read), the activation time of
   the units that have one, the time boot finished, and the fuzz given on the command line.
   */
  datatype Boot = Boot(after: map<string, seq<string>>, activated: map<string, nat>, finish: nat, fuzz: nat)

  predicate TimesInRange(b: Boot, c: string)
  {
    c in b.activated && b.activated[c] > 0 && b.activated[c] <= b.finish
  }

  /** The latest activation time among the dependencies that are in range, 0 if there is none. */
  function Longest(b: Boot, deps: seq<string>): nat
  {
    if deps == [] then 0
    else
      var l := Longest(b, deps[..|deps| - 1]);
      var c := deps[|deps| - 1];
      if TimesInRange(b, c) && b.activated[c] >= l then b.activated[c] else l
  }

  predicate Eligible(b: Boot, longest: nat, c: string)
  {
    TimesInRange(b, c) && longest - b.activated[c] <= b.fuzz
  }

  /** `c` is followed from `x`: it is in range and within the fuzz of the latest dependency of `x`. */
  predicate Edge(b: Boot, x: string, c: string)
  {
    x in b.after && c in b.after[x] && Eligible(b, Longest(b, b.after[x]), c)
  }

  ghost predicate IsChain(b: Boot, p: seq<string>)
  {
    |p| > 0 && forall i | 0 <= i < |p| - 1 :: Edge(b, p[i], p[i + 1])
  }

  ghost predicate Reachable(b: Boot, x: string, y: string)
  {
    exists p :: IsChain(b, p) && p[0] == x && p[|p| - 1] == y
  }

  // ---------- sorting does not matter ----------

  predicate LatestFirst(b: Boot, s: seq<string>)
  {
    forall i, j | 0 <= i < j < |s| :: Time(b, s[i]) >= Time(b, s[j])
  }

  function Insert(b: Boot, c: string, s: seq<string>): (r: seq<string>)
    ensures multiset(r) == multiset(s) + multiset{c}
  {
    if s == [] || Time(b, c) >= Time(b, s[0]) then [c] + s
    else
      assert s == [s[0]] + s[1..];
      [s[0]] + Insert(b, c, s[1..])
  }

  function Time(b: Boot, c: string): nat { if c in b.activated then b.activated[c] else 0 }

  /** The dependencies, latest activation first. */
  function Sorted(b: Boot, deps: seq<string>): (r: seq<string>)
    ensures multiset(r) == multiset(deps)
  {
    if deps == [] then []
    else
      assert deps == [deps[0]] + deps[1..];
      Insert(b, deps[0], Sorted(b, deps[1..]))
  }

  lemma {:induction false} InsertKeepsOrder(b: Boot, c: string, s: seq<string>)
    requires LatestFirst(b, s)
    ensures LatestFirst(b, Insert(b, c, s))
    ensures forall x | x in Insert(b, c, s) :: x == c || x in s
  {
    if s != [] && Time(b, c) < Time(b, s[0]) {
      InsertKeepsOrder(b, c, s[1..]);
      var r := Insert(b, c, s[1..]);
      forall j | 0 <= j < |r| ensures Time(b, s[0]) >= Time(b, r[j]) {
        assert r[j] in r;
      }
    } else {
      assert forall j | 0 <= j < |s| :: Time(b, c) >= Time(b, s[j]);
    }
  }

  lemma {:induction false} SortedLatestFirst(b: Boot, deps: seq<string>)
    ensures LatestFirst(b, Sorted(b, deps))
  {
    if deps != [] {
      SortedLatestFirst(b, deps[1..]);
      InsertKeepsOrder(b, deps[0], Sorted(b, deps[1..]));
    }
  }

  lemma {:induction false} LongestBounds(b: Boot, deps: seq<string>)
    ensures forall c | c in deps && TimesInRange(b, c) :: b.activated[c] <= Longest(b, deps)
    ensures Longest(b, deps) > 0 ==> exists c | c in deps :: TimesInRange(b, c) && b.activated[c] == Longest(b, deps)
  {
    if deps != [] {
      var front := deps[..|deps| - 1];
      assert deps == front + [deps[|deps| - 1]];
      LongestBounds(b, front);
    }
  }

  lemma LongestSame(b: Boot, d1: seq<string>, d2: seq<string>)
    requires multiset(d1) == multiset(d2)
    ensures Longest(b, d1) == Longest(b, d2)
    ensures forall c :: c in d1 <==> c in d2
  {
    LongestBounds(b, d1);
    LongestBounds(b, d2);
    assert forall c :: c in d1 <==> c in multiset(d1);
    assert forall c :: c in d2 <==> c in multiset(d2);
  }

  // ---------- the walk ----------

  function CountEligible(b: Boot, longest: nat, deps: seq<string>): nat
  {
    if deps == [] then 0
    else (if Eligible(b, longest, deps[0]) then 1 else 0) + CountEligible(b, longest, deps[1..])
  }

  lemma CountNone(b: Boot, longest: nat, deps: seq<string>)
    requires CountEligible(b, longest, deps) == 0
    ensures forall c | c in deps :: !Eligible(b, longest, c)
  {
  }

  /** What one call adds to `units`: `added` starts with the unit itself, and is closed under edges. */
  ghost predicate Extends(b: Boot, name: string, before: seq<string>, units: seq<string>)
  {
    && before <= units
    && NoDuplicates(units)
    && (forall x | x in units[|before|..] :: Reachable(b, name, x))
  }

  ghost predicate ClosedIn(b: Boot, xs: seq<string>, units: seq<string>)
  {
    forall x, c | x in xs && Edge(b, x, c) :: c in units
  }

  /** Names that can still be expanded; it shrinks with every recursive call. */
  ghost function Left(b: Boot, name: string, units: seq<string>): nat
  {
    |b.activated.Keys - (set x | x in units)| + if name in b.activated then 0 else 1
  }

  /** The state of a call for `name` between two of its dependencies. */
  ghost predicate Walked(b: Boot, name: string, units0: seq<string>, units: seq<string>)
  {
    && Extends(b, name, units0, units)
    && units0 + [name] <= units
    && ClosedIn(b, units[|units0| + 1..], units)
    && forall x | x in units[|units0|..] :: x in b.after
  }

  method ListDependenciesOne(b: Boot, name: string, units0: seq<string>) returns (ok: bool, units: seq<string>)
    requires NoDuplicates(units0) && name !in units0
    ensures Extends(b, name, units0, units) && name in units
    ensures ok ==> ClosedIn(b, units[|units0|..], units) && forall x | x in units[|units0|..] :: x in b.after
    ensures !ok ==> exists x :: Reachable(b, name, x) && x !in b.after
    decreases Left(b, name, units0)
  {
    hide Extends, ClosedIn, Reachable, NoDuplicates, Walked, Eligible, Left, SeenTo, Longest, CountEligible, Edge;
    units := units0 + [name];
    Started(b, name, units0);
    if name !in b.after {
      return false, units;
    }
    var deps := Sorted(b, b.after[name]);
    LongestSame(b, deps, b.after[name]);

    var longest := LongestLoop(b, deps);
    if longest == 0 {
      NoneInRange(b, deps);
      AllSeenTo(b, longest, deps, 0, units);
      Finished(b, name, units0, units, deps, longest);
      return true, units;
    }
    var toPrint := CountLoop(b, longest, deps);
    if toPrint == 0 {
      AllSeenTo(b, longest, deps, 0, units);
      Finished(b, name, units0, units, deps, longest);
      return true, units;
    }

    var i := 0;
    assert deps[0..] == deps;
    AllSeenTo(b, longest, deps, 0, units);
    while i < |deps|
      invariant 0 <= i <= |deps|
      invariant toPrint == CountEligible(b, longest, deps[i..])
      invariant Walked(b, name, units0, units)
      invariant SeenTo(b, longest, deps, i, units)
      decreases |deps| - i
    {
      var c := deps[i];
      CountNext(b, longest, deps, i);
      SeenNext(b, longest, deps, i, units);
      i := i + 1;
      if !Eligible(b, longest, c) {
        continue;
      }
      toPrint := toPrint - 1;
      if c in units {
        continue;
      }
      ghost var before := units;
      MayRecurse(b, name, units0, units, deps, longest, c);
      ok, units := ListDependenciesOne(b, c, units);
      if !ok {
        StoppedBelow(b, name, c, units0, before, units);
        return;
      }
      WalkedOn(b, name, c, units0, before, units);
      SeenGrows(b, longest, deps, i, before, units);
      if toPrint == 0 {
        break;
      }
    }
    AllSeenTo(b, longest, deps, i, units);
    Finished(b, name, units0, units, deps, longest);
    ok := true;
  }

  method LongestLoop(b: Boot, deps: seq<string>) returns (longest: nat)
    ensures longest == Longest(b, deps)
  {
    longest := 0;
    var i := 0;
    while i < |deps|
      invariant 0 <= i <= |deps|
      invariant longest == Longest(b, deps[..i])
    {
      assert deps[..i + 1][..i] == deps[..i];
      var c := deps[i];
      if TimesInRange(b, c) && b.activated[c] >= longest {
        longest := b.activated[c];
      }
      i := i + 1;
    }
    assert deps[..|deps|] == deps;
  }

  method CountLoop(b: Boot, longest: nat, deps: seq<string>) returns (n: nat)
    ensures n == CountEligible(b, longest, deps)
  {
    n := 0;
    var i := 0;
    while i < |deps|
      invariant 0 <= i <= |deps|
      invariant n + CountEligible(b, longest, deps[i..]) == CountEligible(b, longest, deps)
    {
      assert deps[i..][1..] == deps[i + 1..];
      if Eligible(b, longest, deps[i]) { n := n + 1; }
      i := i + 1;
    }
  }

  // ---------- lemmas for the walk ----------

  lemma Started(b: Boot, name: string, units0: seq<string>)
    requires NoDuplicates(units0) && name !in units0
    ensures Extends(b, name, units0, units0 + [name]) && Reachable(b, name, name)
    ensures name in b.after ==> Walked(b, name, units0, units0 + [name])
  {
    var units := units0 + [name];
    assert units[|units0|..] == [name] && units[|units0| + 1..] == [];
    ReachSelf(b, name);
  }

  lemma {:induction false} NoneInRange(b: Boot, deps: seq<string>)
    requires Longest(b, deps) == 0
    ensures CountEligible(b, 0, deps) == 0
  {
    LongestBounds(b, deps);
    NoneCounted(b, deps);
  }

  lemma {:induction false} NoneCounted(b: Boot, deps: seq<string>)
    requires forall c | c in deps && TimesInRange(b, c) :: b.activated[c] <= 0
    ensures CountEligible(b, 0, deps) == 0
  {
    if deps != [] { NoneCounted(b, deps[1..]); }
  }

  lemma CountNext(b: Boot, longest: nat, deps: seq<string>, i: nat)
    requires i < |deps|
    ensures CountEligible(b, longest, deps[i..])
         == (if Eligible(b, longest, deps[i]) then 1 else 0) + CountEligible(b, longest, deps[i + 1..])
  {
    assert deps[i..][1..] == deps[i + 1..];
  }

  /** The eligible ones among the first `i` dependencies have been visited. */
  ghost predicate SeenTo(b: Boot, longest: nat, deps: seq<string>, i: nat, units: seq<string>)
    requires i <= |deps|
  {
    forall c | c in deps[..i] && Eligible(b, longest, c) :: c in units
  }

  lemma SeenNext(b: Boot, longest: nat, deps: seq<string>, i: nat, units: seq<string>)
    requires i < |deps| && SeenTo(b, longest, deps, i, units)
    ensures !Eligible(b, longest, deps[i]) || deps[i] in units ==> SeenTo(b, longest, deps, i + 1, units)
    ensures SeenTo(b, longest, deps, i + 1, units + [deps[i]])
  {
    hide Eligible;
    assert deps[..i + 1] == deps[..i] + [deps[i]];
  }

  lemma SeenGrows(b: Boot, longest: nat, deps: seq<string>, i: nat, before: seq<string>, units: seq<string>)
    requires 0 < i <= |deps| && SeenTo(b, longest, deps, i, before + [deps[i - 1]])
    requires deps[i - 1] in units && forall x | x in before :: x in units
    ensures SeenTo(b, longest, deps, i, units)
  {
    hide Eligible;
  }

  /** Once no eligible one is left, all have been visited. */
  lemma AllSeenTo(b: Boot, longest: nat, deps: seq<string>, i: nat, units: seq<string>)
    requires i <= |deps|
    requires i == 0 || SeenTo(b, longest, deps, i, units)
    ensures SeenTo(b, longest, deps, i, units)
    ensures CountEligible(b, longest, deps[i..]) == 0 ==> SeenTo(b, longest, deps, |deps|, units)
  {
    hide Eligible;
    assert deps[..|deps|] == deps[..i] + deps[i..];
    if CountEligible(b, longest, deps[i..]) == 0 { CountNone(b, longest, deps[i..]); }
  }

  /** All eligible dependencies have been seen to. */
  lemma Finished(b: Boot, name: string, units0: seq<string>, units: seq<string>, deps: seq<string>, longest: nat)
    requires Walked(b, name, units0, units) && name in b.after
    requires multiset(deps) == multiset(b.after[name]) && longest == Longest(b, deps)
    requires SeenTo(b, longest, deps, |deps|, units)
    ensures Extends(b, name, units0, units) && name in units
    ensures ClosedIn(b, units[|units0|..], units) && forall x | x in units[|units0|..] :: x in b.after
  {
    LongestSame(b, deps, b.after[name]);
    assert deps[..|deps|] == deps;
    assert units[|units0|] == name;
    assert units[|units0|..] == [name] + units[|units0| + 1..];
  }

  lemma MayRecurse(
    b: Boot, name: string, units0: seq<string>, units: seq<string>, deps: seq<string>, longest: nat, c: string)
    requires Walked(b, name, units0, units) && name !in units0 && name in b.after
    requires multiset(deps) == multiset(b.after[name]) && longest == Longest(b, deps)
    requires c in deps && Eligible(b, longest, c) && c !in units
    ensures Edge(b, name, c) && NoDuplicates(units)
    ensures Left(b, c, units) < Left(b, name, units0)
  {
    LongestSame(b, deps, b.after[name]);
    LeftShrinks(b, name, units0, c, units);
  }

  lemma StoppedBelow(b: Boot, name: string, c: string, units0: seq<string>, before: seq<string>, units: seq<string>)
    requires Walked(b, name, units0, before) && Edge(b, name, c) && Extends(b, c, before, units)
    requires exists x :: Reachable(b, c, x) && x !in b.after
    ensures Extends(b, name, units0, units) && name in units
    ensures exists x :: Reachable(b, name, x) && x !in b.after
  {
    ExtendsThrough(b, name, c, units0, before, units);
    var x :| Reachable(b, c, x) && x !in b.after;
    ReachVia(b, name, c, x);
    assert units[|units0|] == before[|units0|] == name;
  }

  lemma WalkedOn(b: Boot, name: string, c: string, units0: seq<string>, before: seq<string>, units: seq<string>)
    requires Walked(b, name, units0, before) && Edge(b, name, c) && Extends(b, c, before, units) && c in units
    requires ClosedIn(b, units[|before|..], units) && forall x | x in units[|before|..] :: x in b.after
    ensures Walked(b, name, units0, units)
    ensures forall x | x in before :: x in units
  {
    ExtendsThrough(b, name, c, units0, before, units);
    var old', new' := before[|units0| + 1..], units[|before|..];
    assert units[|units0| + 1..] == old' + new';
    ClosedTogether(b, old', new', before, units);
    assert units[|units0|..] == before[|units0|..] + new';
    assert before == units[..|before|];
  }

  lemma ReachSelf(b: Boot, x: string)
    ensures Reachable(b, x, x)
  {
    assert IsChain(b, [x]);
  }

  lemma ReachVia(b: Boot, x: string, c: string, y: string)
    requires Edge(b, x, c) && Reachable(b, c, y)
    ensures Reachable(b, x, y)
  {
    var p :| IsChain(b, p) && p[0] == c && p[|p| - 1] == y;
    assert IsChain(b, [x] + p);
  }

  lemma LeftShrinks(b: Boot, name: string, units0: seq<string>, c: string, units: seq<string>)
    requires name !in units0 && units0 + [name] <= units && c in b.activated && c !in units
    ensures Left(b, c, units) < Left(b, name, units0)
  {
    var keys := b.activated.Keys;
    var s0, s := set x | x in units0, set x | x in units;
    assert s0 <= s by {
      forall x | x in s0 ensures x in s { assert units0 == units[..|units0|]; }
    }
    assert units[|units0|] == name;
    if name in keys {
      assert keys - s <= (keys - s0) - {name};
      SubsetSize(keys - s, (keys - s0) - {name});
    } else {
      assert keys - s <= keys - s0;
      SubsetSize(keys - s, keys - s0);
    }
  }

  lemma ExtendsThrough(
    b: Boot, name: string, c: string, units0: seq<string>, before: seq<string>, units: seq<string>)
    requires Extends(b, name, units0, before) && Extends(b, c, before, units) && Edge(b, name, c)
    ensures Extends(b, name, units0, units)
  {
    assert units[|units0|..] == before[|units0|..] + units[|before|..];
    forall x | x in units[|units0|..] ensures Reachable(b, name, x) {
      if x in units[|before|..] { ReachVia(b, name, c, x); }
    }
  }

  lemma ClosedTogether(b: Boot, xs: seq<string>, ys: seq<string>, before: seq<string>, units: seq<string>)
    requires ClosedIn(b, xs, before) && ClosedIn(b, ys, units) && before <= units
    ensures ClosedIn(b, xs + ys, units)
  {
    assert before == units[..|before|];
  }

  /** A list that holds `x` and is closed under edges holds everything reachable from `x`. */
  lemma {:induction false} ClosedHoldsReachable(b: Boot, units: seq<string>, p: seq<string>)
    requires ClosedIn(b, units, units) && IsChain(b, p) && p[0] in units
    ensures p[|p| - 1] in units
    decreases |p|
  {
    if |p| > 1 {
      assert Edge(b, p[0], p[1]);
      assert IsChain(b, p[1..]) by {
        forall i | 0 <= i < |p[1..]| - 1 ensures Edge(b, p[1..][i], p[1..][i + 1]) {
          assert Edge(b, p[i + 1], p[i + 1 + 1]);
        }
      }
      ClosedHoldsReachable(b, units, p[1..]);
    }
  }

  /**
   The walk from `name` always ends, expands no unit twice, and expands exactly the units that can be
   reached; it fails exactly if the dependencies of one of those cannot be read.
   */
  method ListDependencies(b: Boot, name: string) returns (ok: bool, units: seq<string>)
    ensures NoDuplicates(units)
    ensures ok ==> forall x :: x in units <==> Reachable(b, name, x)
    ensures ok <==> forall x | Reachable(b, name, x) :: x in b.after
  {
    ok, units := ListDependenciesOne(b, name, []);
    assert units[0..] == units;
    if ok {
      forall x | Reachable(b, name, x) ensures x in units {
        var p :| IsChain(b, p) && p[0] == name && p[|p| - 1] == x;
        ClosedHoldsReachable(b, units, p);
      }
    }
  }
}
