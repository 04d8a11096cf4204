/**
 src/basic/capability-util.c against the kernel's rules for changing capability sets
 ("Programmatically adjusting capability sets" in capabilities(7)).

 A capability mask is the set of its bit numbers; a mask that is unset (UINT64_MAX) is `None`. libcap is
 taken to know every capability up to `cap_last_cap()`.
 */
module Capabilities {
  import opened Wrappers

  type Mask = set<nat>

  const CAP_SETUID: nat := 7
  const CAP_SETPCAP: nat := 8
  const CAP_LIMIT: nat := 62

  /** A `cap_t`: the three sets that `cap_set_proc()` sets at once. */
  datatype Caps = Caps(effective: Mask, permitted: Mask, inheritable: Mask)

  /** The five capability sets of a process. */
  datatype Creds = Creds(caps: Caps, bounding: Mask, ambient: Mask)

  datatype Ids = Ids(ruid: nat, euid: nat, suid: nat)

  datatype Quintet = Quintet(
    effective: Option<Mask>,
    bounding: Option<Mask>,
    inheritable: Option<Mask>,
    permitted: Option<Mask>,
    ambient: Option<Mask>)

  function UpTo(n: nat): (r: Mask)
    ensures forall i :: i in r <==> 0 <= i < n
  {
    if n == 0 then {} else UpTo(n - 1) + {n - 1}
  }

  lemma UpToNext(n: nat)
    ensures UpTo(n + 1) == UpTo(n) + {n} && n !in UpTo(n)
  {
  }

  // ---------- the kernel ----------

  predicate CapSetAllowed(k: Creds, c: Caps)
  {
    && c.permitted <= k.caps.permitted
    && c.effective <= c.permitted
    && (CAP_SETPCAP in k.caps.effective || c.inheritable <= k.caps.inheritable + k.caps.permitted)
    && c.inheritable <= k.caps.inheritable + k.bounding
  }

  /** Ambient capabilities that are no longer permitted and inheritable are lowered. */
  function AfterCapSet(k: Creds, c: Caps): Creds
  {
    Creds(c, k.bounding, k.ambient * c.permitted * c.inheritable)
  }

  /** What changing all three user IDs does to the capability sets. */
  function AfterSetuid(k: Creds, ids: Ids, keepCaps: bool, uid: nat): Creds
  {
    var hadRoot := ids.ruid == 0 || ids.euid == 0 || ids.suid == 0;
    var k1 :=
      if hadRoot && uid != 0 then
        Creds(if keepCaps then k.caps else k.caps.(permitted := {}, effective := {}), k.bounding, {})
      else k;
    if ids.euid == 0 && uid != 0 then k1.(caps := k1.caps.(effective := {}))
    else if ids.euid != 0 && uid == 0 then k1.(caps := k1.caps.(effective := k1.caps.permitted))
    else k1
  }

  /** What the kernel maintains for every process. */
  predicate Coherent(k: Creds, lastCap: nat)
  {
    && CAP_SETPCAP <= lastCap <= CAP_LIMIT
    && k.caps.permitted <= UpTo(lastCap + 1) && k.caps.inheritable <= UpTo(lastCap + 1)
    && k.bounding <= UpTo(lastCap + 1)
    && k.caps.effective <= k.caps.permitted
    && k.ambient <= k.caps.permitted * k.caps.inheritable
  }

  /** A process and the system calls it makes on itself. */
  class Process {
    const lastCap: nat
    const ambientSupported: bool
    var cred: Creds
    var ids: Ids
    var keepCaps: bool

    constructor (lastCap: nat, ambientSupported: bool, cred: Creds, ids: Ids)
      requires Coherent(cred, lastCap) && (!ambientSupported ==> cred.ambient == {})
      ensures Valid() && this.cred == cred && this.ids == ids
      ensures this.lastCap == lastCap && this.ambientSupported == ambientSupported
    {
      this.lastCap, this.ambientSupported := lastCap, ambientSupported;
      this.cred, this.ids, this.keepCaps := cred, ids, false;
    }

    ghost predicate Valid()
      reads this
    {
      Coherent(cred, lastCap) && (!ambientSupported ==> cred.ambient == {})
    }

    function Known(): Mask { UpTo(lastCap + 1) }

    method CapSetProc(c: Caps) returns (ok: bool)
      requires Valid()
      modifies this`cred
      ensures Valid()
      ensures ok <==> CapSetAllowed(old(cred), c)
      ensures cred == if ok then AfterCapSet(old(cred), c) else old(cred)
    {
      ok := CapSetAllowed(cred, c);
      if ok { cred := AfterCapSet(cred, c); }
    }

    method CapBsetDrop(i: nat) returns (ok: bool)
      requires Valid()
      modifies this`cred
      ensures Valid()
      ensures ok <==> CAP_SETPCAP in old(cred).caps.effective && i <= lastCap
      ensures cred == if ok then old(cred).(bounding := old(cred).bounding - {i}) else old(cred)
    {
      ok := CAP_SETPCAP in cred.caps.effective && i <= lastCap;
      if ok { cred := cred.(bounding := cred.bounding - {i}); }
    }

    method AmbientRaise(i: nat) returns (ok: bool)
      requires Valid() && ambientSupported
      modifies this`cred
      ensures Valid()
      ensures ok <==> i in old(cred).caps.permitted * old(cred).caps.inheritable
      ensures cred == if ok then old(cred).(ambient := old(cred).ambient + {i}) else old(cred)
    {
      ok := i in cred.caps.permitted * cred.caps.inheritable;
      if ok { cred := cred.(ambient := cred.ambient + {i}); }
    }

    method AmbientLower(i: nat)
      requires Valid()
      modifies this`cred
      ensures Valid() && cred == old(cred).(ambient := old(cred).ambient - {i})
    {
      cred := cred.(ambient := cred.ambient - {i});
    }

    method SetResUid(uid: nat) returns (ok: bool)
      requires Valid()
      modifies this`cred, this`ids
      ensures Valid()
      ensures ok <==> CAP_SETUID in old(cred).caps.effective || uid in {old(ids).ruid, old(ids).euid, old(ids).suid}
      ensures cred == if ok then AfterSetuid(old(cred), old(ids), keepCaps, uid) else old(cred)
      ensures ids == if ok then Ids(uid, uid, uid) else old(ids)
    {
      ok := CAP_SETUID in cred.caps.effective || uid in {ids.ruid, ids.euid, ids.suid};
      if ok {
        cred := AfterSetuid(cred, ids, keepCaps, uid);
        ids := Ids(uid, uid, uid);
      }
    }
  }

  // ---------- capability_ambient_set_apply ----------

  /** What is asked for but not in the bounding set goes. */
  method WithinBounding(p: Process, set0: Mask) returns (wanted: Mask)
    requires p.Valid()
    ensures wanted * UpTo(p.lastCap + 1) == set0 * p.cred.bounding
  {
    wanted := set0;
    var i := 0;
    while i <= p.lastCap && wanted != {}
      invariant 0 <= i <= p.lastCap + 1
      invariant wanted == set0 - (UpTo(i) - p.cred.bounding)
    {
      UpToNext(i);
      if i in wanted && i !in p.cred.bounding {
        wanted := wanted - {i};
      }
      i := i + 1;
    }
  }

  method UpdateInheritedSet(p: Process, c0: Caps, wanted: Mask) returns (c: Caps)
    requires c0.inheritable <= UpTo(p.lastCap + 1)
    ensures c == c0.(inheritable := wanted * UpTo(p.lastCap + 1))
  {
    c := c0;
    var i := 0;
    while i <= p.lastCap
      invariant 0 <= i <= p.lastCap + 1
      invariant c == c0.(inheritable := (wanted * UpTo(i)) + (c0.inheritable - UpTo(i)))
    {
      UpToNext(i);
      c := c.(inheritable := if i in wanted then c.inheritable + {i} else c.inheritable - {i});
      i := i + 1;
    }
  }

  /** The ambient set becomes what is wanted, one capability after the other. */
  method RaiseOrLower(p: Process, wanted: Mask) returns (ok: bool)
    requires p.Valid() && p.ambientSupported
    modifies p`cred
    ensures p.Valid() && p.cred == old(p.cred).(ambient := p.cred.ambient)
    ensures var known := wanted * UpTo(p.lastCap + 1);
      (ok <==> known <= old(p.cred.caps.permitted * p.cred.caps.inheritable)) && (ok ==> p.cred.ambient == known)
  {
    var i := 0;
    while i <= p.lastCap
      invariant 0 <= i <= p.lastCap + 1
      invariant p.Valid() && p.cred == old(p.cred).(ambient := p.cred.ambient)
      invariant p.cred.ambient == (wanted * UpTo(i)) + (old(p.cred.ambient) - UpTo(i))
      invariant wanted * UpTo(i) <= p.cred.caps.permitted * p.cred.caps.inheritable
    {
      UpToNext(i);
      if i in wanted {
        ok := p.AmbientRaise(i);
        if !ok {
          assert i in wanted * UpTo(p.lastCap + 1);
          return false;
        }
      } else if i in p.cred.ambient {
        p.AmbientLower(i);
      }
      i := i + 1;
    }
    return true;
  }

  /** Makes the ambient set what is asked for, within the bounding set; `alsoInherit` makes it inheritable first. */
  method AmbientSetApply(p: Process, set0: Mask, alsoInherit: bool) returns (ok: bool)
    requires p.Valid()
    modifies p`cred
    ensures p.Valid() && p.cred.bounding == old(p.cred.bounding)
    ensures !alsoInherit ==> p.cred.caps == old(p.cred.caps)
    ensures var wanted := set0 * old(p.cred.bounding);
      && (ok <==> if !p.ambientSupported then wanted == {}
                  else wanted <= old(p.cred.caps.permitted) && (alsoInherit || wanted <= old(p.cred.caps.inheritable)))
      && (ok ==> p.cred.ambient == wanted)
      && (ok && alsoInherit && p.ambientSupported ==> p.cred.caps == old(p.cred.caps).(inheritable := wanted))
  {
    var wanted := WithinBounding(p, set0);
    if !p.ambientSupported {
      return wanted * p.Known() == {};
    }
    if alsoInherit {
      var c := UpdateInheritedSet(p, p.cred.caps, wanted);
      ok := p.CapSetProc(c);
      if !ok { return; }
    }
    ok := RaiseOrLower(p, wanted);
  }

  // ---------- capability_gain_cap_setpcap, capability_bounding_set_drop ----------

  /** Effective CAP_SETPCAP is acquired if it is permitted; failing to do so is not an error. */
  method GainCapSetpcap(p: Process) returns (before: Caps)
    requires p.Valid()
    modifies p`cred
    ensures p.Valid() && before == old(p.cred.caps)
    ensures p.cred == if CAP_SETPCAP in before.permitted
                      then old(p.cred).(caps := before.(effective := before.effective + {CAP_SETPCAP}))
                      else old(p.cred)
  {
    before := p.cred.caps;
    if CAP_SETPCAP !in before.effective {
      var _ := p.CapSetProc(before.(effective := before.effective + {CAP_SETPCAP}));
      assert p.cred.ambient == old(p.cred.ambient);
    } else {
      assert before.effective + {CAP_SETPCAP} == before.effective;
    }
  }

  /** The result of keeping only `keep` in the bounding set, and in the other sets too if `rightNow`. */
  function Dropped(k: Creds, keep: Mask, rightNow: bool): Creds
  {
    var c := Caps(
      if rightNow then k.caps.effective * keep else k.caps.effective,
      if rightNow then k.caps.permitted * keep else k.caps.permitted,
      k.caps.inheritable * keep);
    Creds(c, k.bounding * keep, k.ambient * c.permitted * c.inheritable)
  }

  method BoundingSetDrop(p: Process, keep: Mask, rightNow: bool) returns (ok: bool)
    requires p.Valid()
    modifies p`cred
    ensures p.Valid()
    ensures ok <==> CAP_SETPCAP in old(p.cred.caps.permitted) || old(p.cred.bounding) <= keep
    ensures ok ==> p.cred == Dropped(old(p.cred), keep, rightNow)
  {
    var before := GainCapSetpcap(p);
    var after := before;
    ghost var held := p.cred;
    ok := true;
    var i := 0;
    while i <= p.lastCap && ok
      invariant 0 <= i <= p.lastCap + 1
      invariant p.Valid() && p.cred == held.(bounding := p.cred.bounding)
      invariant p.cred.bounding == held.bounding - (UpTo(i) - keep)
      invariant after.inheritable == before.inheritable - (UpTo(i) - keep)
      invariant after.permitted == if rightNow then before.permitted - (UpTo(i) - keep) else before.permitted
      invariant after.effective == if rightNow then before.effective - (UpTo(i) - keep) else before.effective
      invariant ok ==> CAP_SETPCAP in held.caps.effective || held.bounding * UpTo(i) <= keep
      invariant !ok ==> CAP_SETPCAP !in held.caps.effective && !(held.bounding <= keep)
      decreases p.lastCap + 1 - i, ok
    {
      UpToNext(i);
      if i !in keep {
        var dropped := p.CapBsetDrop(i);
        if !dropped && i in p.cred.bounding {
          ok := false;
        } else {
          after := after.(inheritable := after.inheritable - {i});
          if rightNow {
            after := after.(permitted := after.permitted - {i}, effective := after.effective - {i});
          }
        }
      }
      if ok { i := i + 1; }
    }
    ghost var known := UpTo(p.lastCap + 1);
    assert ok ==> held.bounding * known == held.bounding;
    var applied := p.CapSetProc(after);
    if !applied && before != after {
      ok := false;
    }
    assert ok ==> p.cred.caps == Dropped(old(p.cred), keep, rightNow).caps;
  }

  // ---------- capability_quintet_enforce ----------

  /** `want` if it is set, cut to the known capabilities, otherwise what is there. */
  function Choose(want: Option<Mask>, have: Mask, known: Mask): Mask
  {
    if want.None? then have else want.value * known
  }

  /** `Choose` on the first `n` capabilities. */
  function Overlay(want: Option<Mask>, have: Mask, n: nat): Mask
  {
    if want.None? then have else (have - UpTo(n)) + want.value * UpTo(n)
  }

  /** The ambient capabilities asked for. */
  function Asked(q: Quintet, known: Mask): Mask
  {
    if q.ambient.None? then {} else q.ambient.value * known
  }

  /** The process after the ambient set has been dealt with. */
  function AmbientDone(k: Creds, q: Quintet, known: Mask): Creds
  {
    var a := Asked(q, known);
    Creds(k.caps.(inheritable := k.caps.inheritable + a), k.bounding,
          if q.ambient.None? then k.ambient else a * k.bounding)
  }

  /** Effective, permitted and inheritable as the quintet wants them. */
  function Wanted(k: Creds, q: Quintet, known: Mask): Caps
  {
    var c := AmbientDone(k, q, known).caps;
    Caps(Choose(q.effective, c.effective, known), Choose(q.permitted, c.permitted, known),
         Choose(q.inheritable, c.inheritable, known))
  }

  /** What is set first: CAP_SETPCAP stays on while the bounding set is still to be changed. */
  function Interim(k: Creds, q: Quintet, known: Mask): Caps
  {
    var w := Wanted(k, q, known);
    if q.bounding.None? then w
    else w.(effective := w.effective + {CAP_SETPCAP}, permitted := w.permitted + {CAP_SETPCAP})
  }

  /** The call succeeds. */
  predicate Enforceable(k: Creds, q: Quintet, known: Mask, ambientSupported: bool)
  {
    var a := Asked(q, known);
    var k1 := AmbientDone(k, q, known);
    var w := Wanted(k, q, known);
    var m := Interim(k, q, known);
    && a <= k.caps.permitted && a <= k.caps.inheritable + k.bounding && (ambientSupported || a * k.bounding == {})
    && if w == k1.caps
       then q.bounding.None? || CAP_SETPCAP in w.permitted || k.bounding <= q.bounding.value
       else && CapSetAllowed(k1, m)
            && (m != w ==> w.effective <= w.permitted && w.inheritable <= q.bounding.value)
            && (q.bounding.Some? ==> CAP_SETPCAP in m.permitted || k.bounding <= q.bounding.value)
  }

  /** Where every successful call ends. */
  function Enforced(k: Creds, q: Quintet, known: Mask): Creds
  {
    var w := Wanted(k, q, known);
    var keep := if q.bounding.None? then known else q.bounding.value;
    var inheritable := w.inheritable * keep;
    Creds(w.(inheritable := inheritable), k.bounding * keep,
          AmbientDone(k, q, known).ambient * w.permitted * inheritable)
  }

  /** The first part: raise inheritable and permitted where needed, then set the ambient capabilities. */
  method RaiseAmbient(p: Process, ambient: Mask) returns (ok: bool, c: Caps)
    requires p.Valid()
    modifies p`cred
    ensures p.Valid()
    ensures var a := ambient * UpTo(p.lastCap + 1);
      && (ok <==> && a <= old(p.cred.caps.permitted)
                  && a <= old(p.cred.caps.inheritable + p.cred.bounding)
                  && (p.ambientSupported || a * old(p.cred.bounding) == {}))
      && (ok ==> && p.cred == Creds(old(p.cred.caps).(inheritable := old(p.cred.caps.inheritable) + a),
                                    old(p.cred.bounding), a * old(p.cred.bounding))
                 && c == p.cred.caps)
  {
    c := p.cred.caps;
    var changed := false;
    var i := 0;
    while i <= p.lastCap
      invariant 0 <= i <= p.lastCap + 1 && p.cred == old(p.cred)
      invariant c.effective == p.cred.caps.effective
      invariant c.permitted == p.cred.caps.permitted + ambient * UpTo(i)
      invariant c.inheritable == p.cred.caps.inheritable + ambient * UpTo(i)
      invariant !changed ==> c == p.cred.caps
    {
      UpToNext(i);
      if i in ambient && !(i in c.inheritable && i in c.permitted) {
        c := c.(inheritable := c.inheritable + {i}, permitted := c.permitted + {i});
        changed := true;
      }
      i := i + 1;
    }
    ghost var a := ambient * UpTo(p.lastCap + 1);
    ghost var k := p.cred;
    if changed {
      ok := p.CapSetProc(c);
      if !ok { return; }
      assert p.cred.ambient == k.ambient;
    }
    assert k.caps.permitted + a == k.caps.permitted;
    assert p.cred == Creds(k.caps.(inheritable := k.caps.inheritable + a), k.bounding, k.ambient);
    ok := AmbientSetApply(p, ambient, false);
    assert ambient * k.bounding == a * k.bounding;
  }

  method QuintetEnforce(p: Process, q: Quintet) returns (ok: bool)
    requires p.Valid()
    modifies p`cred
    ensures p.Valid()
    ensures ok <==> Enforceable(old(p.cred), q, UpTo(p.lastCap + 1), p.ambientSupported)
    ensures ok ==> p.cred == Enforced(old(p.cred), q, UpTo(p.lastCap + 1))
  {
    hide UpTo;
    ghost var known := UpTo(p.lastCap + 1);
    ghost var k := p.cred;
    var c := p.cred.caps;
    if q.ambient.Some? {
      ok, c := RaiseAmbient(p, q.ambient.value);
      if !ok { return; }
    }
    ghost var k1 := p.cred;
    assert k1 == AmbientDone(k, q, known) && c == k1.caps;

    var modified: Option<Caps> := None;
    if q.inheritable.Some? || q.permitted.Some? || q.effective.Some? {
      c := OverlayAll(p, c, q);
      if c != p.cred.caps {
        if q.bounding.Some? {
          var m := c.(permitted := c.permitted + {CAP_SETPCAP}, effective := c.effective + {CAP_SETPCAP});
          if m != c { modified := Some(m); }
        }
        ok := p.CapSetProc(if modified.Some? then modified.value else c);
        if !ok { return; }
      }
    }
    assert c == Wanted(k, q, known);
    ghost var k2 := p.cred;
    if q.bounding.Some? {
      ok := BoundingSetDrop(p, q.bounding.value, false);
      if !ok { return; }
    }
    if modified.Some? {
      ok := p.CapSetProc(c);
      if !ok { return; }
    }
    ok := true;
  }

  /** The loop that brings the working copy to what the quintet asks for. */
  method OverlayAll(p: Process, c0: Caps, q: Quintet) returns (c: Caps)
    requires c0.effective <= UpTo(p.lastCap + 1) && c0.permitted <= UpTo(p.lastCap + 1)
    requires c0.inheritable <= UpTo(p.lastCap + 1)
    ensures var known := UpTo(p.lastCap + 1);
      c == Caps(Choose(q.effective, c0.effective, known), Choose(q.permitted, c0.permitted, known),
                Choose(q.inheritable, c0.inheritable, known))
  {
    c := c0;
    var i := 0;
    while i <= p.lastCap
      invariant 0 <= i <= p.lastCap + 1
      invariant c == Caps(Overlay(q.effective, c0.effective, i), Overlay(q.permitted, c0.permitted, i),
                          Overlay(q.inheritable, c0.inheritable, i))
    {
      c := c.(inheritable := Flag(q.inheritable, c.inheritable, i));
      OverlayNext(q.inheritable, c0.inheritable, i);
      c := c.(permitted := Flag(q.permitted, c.permitted, i));
      OverlayNext(q.permitted, c0.permitted, i);
      c := c.(effective := Flag(q.effective, c.effective, i));
      OverlayNext(q.effective, c0.effective, i);
      i := i + 1;
    }
    ghost var known := UpTo(p.lastCap + 1);
    assert c0.effective - known == {} && c0.permitted - known == {} && c0.inheritable - known == {};
  }

  /** `cap_get_flag()` and, if the value differs from the wanted one, `cap_set_flag()`. */
  function Flag(want: Option<Mask>, have: Mask, i: nat): Mask
  {
    if want.None? then have
    else if (i in have) == (i in want.value) then have
    else if i in want.value then have + {i}
    else have - {i}
  }

  lemma OverlayNext(want: Option<Mask>, have: Mask, i: nat)
    ensures Flag(want, Overlay(want, have, i), i) == Overlay(want, have, i + 1)
  {
    UpToNext(i);
  }

  // ---------- what enforcing achieves ----------

  /** All five sets are given and name known capabilities only. */
  predicate Full(q: Quintet, known: Mask)
  {
    && q.effective.Some? && q.bounding.Some? && q.inheritable.Some? && q.permitted.Some? && q.ambient.Some?
    && q.effective.value <= known && q.bounding.value <= known && q.inheritable.value <= known
    && q.permitted.value <= known && q.ambient.value <= known
  }

  function AsCreds(q: Quintet): Creds
    requires q.effective.Some? && q.bounding.Some? && q.inheritable.Some? && q.permitted.Some? && q.ambient.Some?
  {
    Creds(Caps(q.effective.value, q.permitted.value, q.inheritable.value), q.bounding.value, q.ambient.value)
  }

  /**
   A successful call ends with all five sets equal to the quintet exactly if the quintet is consistent
   and the bounding set it asks for is not larger than the current one.
   */
  lemma QuintetReachedExactly(k: Creds, q: Quintet, lastCap: nat)
    requires var known := UpTo(lastCap + 1); Coherent(k, lastCap) && Full(q, known)
    ensures Enforced(k, q, UpTo(lastCap + 1)) == AsCreds(q) <==>
      && q.bounding.value <= k.bounding
      && q.inheritable.value <= q.bounding.value
      && q.ambient.value <= q.permitted.value * q.inheritable.value
  {
    var known := UpTo(lastCap + 1);
    var e := Enforced(k, q, known);
    var i, b, a, p := q.inheritable.value, q.bounding.value, q.ambient.value, q.permitted.value;
    assert a * known == a && p * known == p && i * known == i && q.effective.value * known == q.effective.value;
    assert e == Creds(Caps(q.effective.value, p, i * b), k.bounding * b, (a * k.bounding) * p * (i * b));
    if b <= k.bounding && i <= b && a <= p * i {
      assert i * b == i && k.bounding * b == b && (a * k.bounding) * p * (i * b) == a;
    }
    if e == AsCreds(q) {
      assert i * b == i ==> i <= b;
      assert k.bounding * b == b ==> b <= k.bounding;
      assert (a * k.bounding) * p * (i * b) <= p * i;
    }
  }

  /** For a consistent quintet, exactly which processes can enforce it. */
  lemma WhoCanEnforce(k: Creds, q: Quintet, lastCap: nat)
    requires var known := UpTo(lastCap + 1); Coherent(k, lastCap) && Full(q, known)
    requires q.ambient.value <= q.permitted.value * q.inheritable.value
    requires q.effective.value <= q.permitted.value
    requires q.inheritable.value <= q.bounding.value <= k.bounding
    ensures Enforceable(k, q, UpTo(lastCap + 1), true) <==>
      var i, b, p := q.inheritable.value, q.bounding.value, q.permitted.value;
      if k.caps == Caps(q.effective.value, p, k.caps.inheritable) && k.caps.inheritable + q.ambient.value == i
      then CAP_SETPCAP in p || k.bounding <= b
      else && p + {CAP_SETPCAP} <= k.caps.permitted
           && (CAP_SETPCAP in k.caps.effective || i <= k.caps.inheritable + k.caps.permitted)
  {
    var known := UpTo(lastCap + 1);
    var i, b, a, p, e := q.inheritable.value, q.bounding.value, q.ambient.value, q.permitted.value, q.effective.value;
    assert a * known == a && p * known == p && i * known == i && e * known == e;
    assert AmbientDone(k, q, known).caps == k.caps.(inheritable := k.caps.inheritable + a);
    assert Wanted(k, q, known) == Caps(e, p, i);
    assert a <= p && a <= k.bounding;
    var m := Interim(k, q, known);
    assert m.permitted == p + {CAP_SETPCAP} && m.effective == e + {CAP_SETPCAP} && m.inheritable == i;
    if a <= k.caps.permitted {
      assert k.caps.inheritable + a + k.caps.permitted == k.caps.inheritable + k.caps.permitted;
    }
  }

  /** Enforcing never adds to the permitted or the bounding set, whatever is asked for. */
  lemma EnforceOnlyDrops(k: Creds, q: Quintet, lastCap: nat, ambientSupported: bool)
    requires Coherent(k, lastCap) && Enforceable(k, q, UpTo(lastCap + 1), ambientSupported)
    ensures var r := Enforced(k, q, UpTo(lastCap + 1));
      && r.caps.permitted <= k.caps.permitted && r.bounding <= k.bounding
      && r.caps.inheritable <= k.caps.inheritable + k.bounding
      && Coherent(r, lastCap)
  {
    var known := UpTo(lastCap + 1);
    assert k.bounding * known == k.bounding;
  }

  /** A process that has been brought to a consistent quintet stays there when it is enforced again. */
  lemma EnforceAgain(q: Quintet, lastCap: nat)
    requires Full(q, UpTo(lastCap + 1)) && Coherent(AsCreds(q), lastCap)
    requires q.inheritable.value <= q.bounding.value
    ensures Enforceable(AsCreds(q), q, UpTo(lastCap + 1), true)
    ensures Enforced(AsCreds(q), q, UpTo(lastCap + 1)) == AsCreds(q)
  {
    QuintetReachedExactly(AsCreds(q), q, lastCap);
    WhoCanEnforce(AsCreds(q), q, lastCap);
    assert q.inheritable.value + q.ambient.value == q.inheritable.value;
  }

  // ---------- capability_quintet_mangle ----------

  /** The bits of a 64-bit mask; UINT64_MAX, which means unset, has all of them. */
  function Bits(m: Option<Mask>): Mask { if m.None? then UpTo(64) else m.value }

  function FromBits(bits: Mask): Option<Mask> { if bits == UpTo(64) then None else Some(bits) }

  predicate Is64Bit(m: Option<Mask>) { m.Some? ==> m.value < UpTo(64) }

  predicate AllAre64Bit(q: Quintet)
  {
    && Is64Bit(q.effective) && Is64Bit(q.bounding) && Is64Bit(q.inheritable) && Is64Bit(q.permitted)
    && Is64Bit(q.ambient)
  }

  lemma BitsAndBack(m: Option<Mask>, drop: Mask)
    requires Is64Bit(m)
    ensures Bits(FromBits(Bits(m) - drop)) == Bits(m) - drop && Is64Bit(FromBits(Bits(m) - drop))
    ensures FromBits(Bits(m) - drop) == m <==> Bits(m) * drop == {}
    ensures FromBits(Bits(m) - drop).None? ==> m.None?
  {
    if Bits(m) * drop == {} {
      assert Bits(m) - drop == Bits(m);
    } else {
      var d :| d in Bits(m) * drop;
      assert d !in Bits(m) - drop;
    }
  }

  /** If a mask is all ones, nothing is dropped exactly if the bounding set is full. */
  lemma DropsNothing(p: Process, combined: Mask, drop: Mask)
    requires p.Valid() && drop == combined * UpTo(p.lastCap + 1) - p.cred.bounding
    ensures UpTo(p.lastCap + 1) <= p.cred.bounding ==> drop == {}
    ensures UpTo(64) <= combined && drop == {} ==> UpTo(p.lastCap + 1) <= p.cred.bounding
  {
    hide UpTo;
    if UpTo(64) <= combined && drop == {} {
      forall i | i in UpTo(p.lastCap + 1) ensures i in p.cred.bounding {
        assert i in UpTo(64);
        assert i in combined;
        assert i !in drop;
      }
    }
  }

  /**
   Takes what is not in the bounding set out of all masks. An unset mask other than the ambient one is all ones to
   the code; it stays unset exactly if the bounding set is full.
   */
  method QuintetMangle(p: Process, q: Quintet) returns (changed: bool, r: Quintet)
    requires p.Valid() && AllAre64Bit(q)
    ensures forall i: nat :: var stays := i in p.cred.bounding || i > p.lastCap;
      && (i in Bits(r.effective) <==> i in Bits(q.effective) && stays)
      && (i in Bits(r.bounding) <==> i in Bits(q.bounding) && stays)
      && (i in Bits(r.inheritable) <==> i in Bits(q.inheritable) && stays)
      && (i in Bits(r.permitted) <==> i in Bits(q.permitted) && stays)
      && (q.ambient.Some? ==> (i in Bits(r.ambient) <==> i in Bits(q.ambient) && stays))
    ensures var full := UpTo(p.lastCap + 1) <= p.cred.bounding;
      && (r.effective.None? <==> q.effective.None? && full)
      && (r.bounding.None? <==> q.bounding.None? && full)
      && (r.inheritable.None? <==> q.inheritable.None? && full)
      && (r.permitted.None? <==> q.permitted.None? && full)
    ensures AllAre64Bit(r) && (r.ambient.None? <==> q.ambient.None?)
    ensures changed <==> r != q
  {
    hide UpTo, Is64Bit;
    var combined := Bits(q.effective) + Bits(q.bounding) + Bits(q.inheritable) + Bits(q.permitted);
    if q.ambient.Some? { combined := combined + Bits(q.ambient); }
    var drop: Mask := {};
    var i := 0;
    while i <= p.lastCap
      invariant 0 <= i <= p.lastCap + 1
      invariant drop == combined * UpTo(i) - p.cred.bounding
    {
      UpToNext(i);
      if i in combined && i !in p.cred.bounding {
        drop := drop + {i};
      }
      i := i + 1;
    }
    DropsNothing(p, combined, drop);
    BitsAndBack(q.effective, drop);
    BitsAndBack(q.bounding, drop);
    BitsAndBack(q.inheritable, drop);
    BitsAndBack(q.permitted, drop);
    BitsAndBack(q.ambient, drop);
    assert drop <= UpTo(64);
    hide FromBits, Bits, Is64Bit;
    r := Quintet(FromBits(Bits(q.effective) - drop), FromBits(Bits(q.bounding) - drop),
                 FromBits(Bits(q.inheritable) - drop), FromBits(Bits(q.permitted) - drop),
                 if q.ambient.Some? then FromBits(Bits(q.ambient) - drop) else None);
    changed := drop != {};
    if changed {
      var d :| d in drop;
      assert d in combined;
    }
  }

  // ---------- drop_privileges ----------

  /** The highest bit of a mask below `n`; `log2u64()` is this for `n` = 64. */
  function HighestBit(m: Mask, n: nat): (b: nat)
    requires m * UpTo(n) != {}
    ensures b in m && b < n && forall x | x in m && x < n :: x <= b
  {
    UpToNext(n - 1);
    if n - 1 in m then n - 1 else
      assert m * UpTo(n) == m * UpTo(n - 1);
      HighestBit(m, n - 1)
  }

  /** The loop that turns a mask into the list of its bits. */
  method BitList(keep: Mask) returns (list: seq<nat>)
    requires keep != {} && keep <= UpTo(64)
    ensures forall x :: x in list <==> x in keep
    ensures forall i, j | 0 <= i < j < |list| :: list[i] < list[j]
  {
    assert keep * UpTo(64) == keep;
    hide ListsBelow, UpTo;
    var n := HighestBit(keep, 64) + 1;
    ListsNone(keep);
    var bits := new nat[n];
    var i, j := 0, 0;
    while i < n
      invariant 0 <= j <= i <= n
      invariant ListsBelow(bits[..j], keep, i)
    {
      ListsNext(bits[..j], keep, i);
      if i in keep {
        bits[j] := i;
        assert bits[..j + 1] == bits[..j] + [i];
        j := j + 1;
      }
      i := i + 1;
    }
    assert i - 1 in keep && forall x | x in keep :: x < i;
    list := bits[..j];
    ListsAll(list, keep, i);
  }

  /** The bits of the mask that are below `i`, in order. */
  ghost predicate ListsBelow(list: seq<nat>, keep: Mask, i: nat)
  {
    && (forall x :: x in list <==> x in keep && x < i)
    && (forall a, b | 0 <= a < b < |list| :: list[a] < list[b])
  }

  lemma ListsNone(keep: Mask)
    ensures ListsBelow([], keep, 0)
  {
  }

  lemma ListsNext(list: seq<nat>, keep: Mask, i: nat)
    requires ListsBelow(list, keep, i)
    ensures ListsBelow(if i in keep then list + [i] else list, keep, i + 1)
  {
    assert forall a | 0 <= a < |list| :: list[a] in list;
  }

  lemma ListsAll(list: seq<nat>, keep: Mask, i: nat)
    requires ListsBelow(list, keep, i) && forall x | x in keep :: x < i
    ensures forall x :: x in list <==> x in keep
    ensures forall a, b | 0 <= a < b < |list| :: list[a] < list[b]
  {
  }

  /**
   Changes to user `uid` while keeping only the capabilities `keep`. `groupsChanged` says whether the two
   calls that change group IDs succeeded.
   */
  method DropPrivileges(p: Process, uid: nat, groupsChanged: bool, keep: Mask) returns (ok: bool)
    requires p.Valid() && keep <= UpTo(64)
    modifies p
    ensures p.Valid()
    ensures ok <==>
      && groupsChanged
      && (CAP_SETUID in old(p.cred.caps.effective) || uid in {old(p.ids).ruid, old(p.ids).euid, old(p.ids).suid})
      && (CAP_SETPCAP in old(p.cred.caps.permitted) || old(p.cred.bounding) <= keep)
      && keep <= old(p.cred.caps.permitted)
    ensures ok ==>
      && p.cred == Creds(Caps(keep, keep, {}), old(p.cred.bounding) * keep, {})
      && p.ids == Ids(uid, uid, uid)
  {
    hide UpTo;
    if !groupsChanged { return false; }
    p.keepCaps := true;
    ok := p.SetResUid(uid);
    if !ok { return; }
    p.keepCaps := false;
    assert p.cred.caps.permitted == old(p.cred.caps.permitted);
    ghost var k := p.cred;
    ok := BoundingSetDrop(p, keep, true);
    if !ok { return; }
    if keep != {} {
      var list := BitList(keep);
      var d := Caps(set x | x in list, set x | x in list, {});
      assert d.effective == keep;
      ok := p.CapSetProc(d);
      if !ok {
        assert !(keep <= k.caps.permitted * keep);
        return;
      }
    } else {
      assert p.cred.caps == Caps({}, {}, {});
    }
    assert p.cred.ambient == {};
  }
}
