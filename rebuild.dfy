/**
  What a walk builds when the customizer decides by value and key alone.

  A customizer that never looks at the path and never redirects with
  `path` can only drop, replace, rename or keep each entry in place.  For
  such a customizer the walk is a structural rebuild of the input
  (`Rebuild`): every container is rebuilt from its entries in order, a
  container whose entries were all dropped disappears, and an input
  container that was empty to begin with is kept.  Deep copy and leaf
  mapping are special cases.
 */
module LocalRewrite {
  import opened Wrappers
  import opened JsValue
  import opened PathSet
  import opened Walker

  /** The customizer ignores the path it is shown and never returns a `path`. */
  ghost predicate Local(visit: Visitor) {
    && (forall v, k, p :: visit(v, k, p) == visit(v, k, []))
    && (forall v, k :: Resolve(visit, v, k, []).path.None?)
  }

  /** The key entry (`k`, `v`) is written under: the directive's truthy `key`, else `k`. */
  function NewKey(visit: Visitor, k: Key, v: Tree): Key {
    var d := Resolve(visit, v, k, []);
    if d.key.Some? && Truthy(d.key.value) then d.key.value else k
  }

  /**
    Renaming keeps every container well formed: the entries of a container
    get distinct new keys, which are indices in an array and names in an
    object.
   */
  ghost predicate Renamable(visit: Visitor, t: Tree) {
    match t
    case Leaf(_) => true
    case Node(_, _, kids) =>
      && (forall i, j :: 0 <= i < j < |Entries(t)| ==>
            NewKey(visit, Entries(t)[i].0, Entries(t)[i].1) != NewKey(visit, Entries(t)[j].0, Entries(t)[j].1))
      && (forall i :: 0 <= i < |Entries(t)| ==> NewKey(visit, Entries(t)[i].0, Entries(t)[i].1).Idx? == IsArray(t))
      && forall k | k in kids :: Renamable(visit, kids[k])
  }

  /**
    Entry `i` of `t` added to the rebuilt `acc`: a leaf or skipped
    container is written under its new key (its directive's value if any)
    unless removed; an empty container is written as a new empty one unless
    removed; any other container is rebuilt and written only if something
    survived in it.
   */
  function RebuildStep(visit: Visitor, t: Tree, i: nat, acc: Tree): Tree
    requires i < |Entries(t)|
    decreases t, |Entries(t)| - i, 0
  {
    var (k, v) := Entries(t)[i];
    var d := Resolve(visit, v, k, []);
    var nk := NewKey(visit, k, v);
    if IsObject(v) && !d.skip then
      if IsEmpty(v) then (if d.remove then acc else WriteSlot(acc, nk, EmptyLike(v)))
      else
        EntryIsChild(t, i);
        var c := RebuildFrom(visit, v, 0, EmptyLike(v));
        if c == EmptyLike(v) then acc else WriteSlot(acc, nk, c)
    else if d.remove then acc
    else WriteSlot(acc, nk, FinalValue(d, v))
  }

  /** The rebuild of entries `i ..` of `t` onto `acc`, in entry order. */
  function RebuildFrom(visit: Visitor, t: Tree, i: nat, acc: Tree): Tree
    decreases t, |Entries(t)| - i, 1
  {
    if i >= |Entries(t)| then acc
    else RebuildFrom(visit, t, i + 1, RebuildStep(visit, t, i, acc))
  }

  function Rebuild(visit: Visitor, t: Tree): Tree {
    RebuildFrom(visit, t, 0, EmptyLike(t))
  }

  /** Every write of `cs`, moved under location `s`. */
  function Under(s: seq<Key>, cs: seq<Commit>): (r: seq<Commit>)
    ensures |r| == |cs| && forall j :: 0 <= j < |cs| ==> r[j] == Commit(s + cs[j].path, cs[j].value)
  {
    seq(|cs|, j requires 0 <= j < |cs| => Commit(s + cs[j].path, cs[j].value))
  }

  lemma UnderConcat(s: seq<Key>, a: seq<Commit>, b: seq<Commit>)
    ensures Under(s, a + b) == Under(s, a) + Under(s, b)
  {
  }

  lemma ShiftConcat(s: seq<Key>, a: seq<Commit>, b: seq<Commit>, a0: seq<Commit>, b0: seq<Commit>)
    requires a == Under(s, a0) && b == Under(s, b0)
    ensures a + b == Under(s, a0 + b0)
  {
    UnderConcat(s, a0, b0);
  }

  lemma UnderUnder(s: seq<Key>, s': seq<Key>, cs: seq<Commit>)
    ensures Under(s, Under(s', cs)) == Under(s + s', cs)
  {
    forall j | 0 <= j < |cs|
      ensures Under(s, Under(s', cs))[j] == Under(s + s', cs)[j]
    {
      assert s + (s' + cs[j].path) == (s + s') + cs[j].path;
    }
  }

  /** A local customizer sees the same directive whatever path it is shown. */
  lemma LocalResolve(visit: Visitor, v: Tree, k: Key, p: seq<Key>)
    requires Local(visit)
    ensures Resolve(visit, v, k, p) == Resolve(visit, v, k, [])
  {
    assert visit(v, k, p) == visit(v, k, []);
  }

  /** Without a `path` directive the final path is the natural one with the new key last. */
  lemma LocalFinalPath(visit: Visitor, s: seq<Key>, k: Key, v: Tree)
    requires Local(visit)
    ensures var d := Resolve(visit, v, k, s + [k]);
      FinalPath(d, s + [k]) == s + [NewKey(visit, k, v)] && ChildStack(d, s + [k]) == s + [NewKey(visit, k, v)]
  {
    LocalResolve(visit, v, k, s + [k]);
    assert (s + [k])[..|s|] == s;
  }

  /** Entry `i` walked under stack `s` makes its root writes moved under `s`. */
  ghost predicate EntryShifts(visit: Visitor, t: Tree, i: nat, s: seq<Key>, pos: seq<Key>)
    requires i < |Entries(t)|
  {
    CommitsOf(EntryVisits(visit, t, i, s, pos)) == Under(s, CommitsOf(EntryVisits(visit, t, i, [], pos)))
  }

  lemma {:induction false} EntryShift(visit: Visitor, t: Tree, i: nat, s: seq<Key>, pos: seq<Key>)
    requires Local(visit) && i < |Entries(t)|
    ensures EntryShifts(visit, t, i, s, pos)
    decreases t, |Entries(t)| - i, 0
  {
    var (k, v) := Entries(t)[i];
    var d := Resolve(visit, v, k, []);
    var nk := NewKey(visit, k, v);
    LocalResolve(visit, v, k, s + [k]);
    LocalResolve(visit, v, k, [] + [k]);
    LocalFinalPath(visit, s, k, v);
    LocalFinalPath(visit, [], k, v);
    assert [] + [k] == [k] && [] + [nk] == [nk];
    EntryWrites(visit, t, i, s, pos, k, v, d);
    EntryWrites(visit, t, i, [], pos, k, v, d);
    if IsObject(v) && !d.skip && !(IsEmpty(v) && !d.remove) {
      EntryIsChild(t, i);
      var below := CommitsOf(VisitsFrom(visit, v, 0, [], pos + [k]));
      StackShift(visit, v, 0, s + [nk], pos + [k]);
      StackShift(visit, v, 0, [nk], pos + [k]);
      UnderUnder(s, [nk], below);
    }
  }

  /**
    Walking a container with stack `s` makes the writes of walking it from
    the root, each moved under `s`: a local customizer's writes do not
    depend on where the container sits.
   */
  lemma {:induction false} StackShift(visit: Visitor, t: Tree, i: nat, s: seq<Key>, pos: seq<Key>)
    requires Local(visit)
    ensures CommitsOf(VisitsFrom(visit, t, i, s, pos)) == Under(s, CommitsOf(VisitsFrom(visit, t, i, [], pos)))
    decreases t, |Entries(t)| - i, 4
  {
    ShiftsFromAll(visit, t, i, s, pos);
  }

  /** The walk of entries `i ..` under stack `s` makes the root walk's writes moved under `s`. */
  ghost predicate ShiftsFrom(visit: Visitor, t: Tree, i: nat, s: seq<Key>, pos: seq<Key>) {
    CommitsOf(VisitsFrom(visit, t, i, s, pos)) == Under(s, CommitsOf(VisitsFrom(visit, t, i, [], pos)))
  }

  lemma {:induction false} ShiftsFromAll(visit: Visitor, t: Tree, i: nat, s: seq<Key>, pos: seq<Key>)
    requires Local(visit)
    ensures ShiftsFrom(visit, t, i, s, pos)
    decreases t, |Entries(t)| - i, 3
  {
    if i < |Entries(t)| {
      ShiftsFromEntry(visit, t, i, s, pos);
    } else {
      ShiftsPastEnd(visit, t, i, s, pos);
    }
  }

  /** The induction step of `ShiftsFromAll`, at an entry `i`. */
  lemma {:induction false} ShiftsFromEntry(visit: Visitor, t: Tree, i: nat, s: seq<Key>, pos: seq<Key>)
    requires Local(visit) && i < |Entries(t)|
    ensures ShiftsFrom(visit, t, i, s, pos)
    decreases t, |Entries(t)| - i, 2
  {
    ShiftsFromAll(visit, t, i + 1, s, pos);
    StackShiftStep(visit, t, i, s, pos);
  }

  lemma ShiftsPastEnd(visit: Visitor, t: Tree, i: nat, s: seq<Key>, pos: seq<Key>)
    requires |Entries(t)| <= i
    ensures ShiftsFrom(visit, t, i, s, pos)
  {
  }

  /** Entry `i` and the entries after it, each shifted, make the shifted walk of entries `i ..`. */
  lemma StackShiftStep(visit: Visitor, t: Tree, i: nat, s: seq<Key>, pos: seq<Key>)
    requires Local(visit) && i < |Entries(t)|
    requires ShiftsFrom(visit, t, i + 1, s, pos)
    ensures ShiftsFrom(visit, t, i, s, pos)
    decreases t, |Entries(t)| - i, 1
  {
    var a := EntryVisits(visit, t, i, s, pos);
    var b := VisitsFrom(visit, t, i + 1, s, pos);
    var a0 := EntryVisits(visit, t, i, [], pos);
    var b0 := VisitsFrom(visit, t, i + 1, [], pos);
    EntryShift(visit, t, i, s, pos);
    CommitsOfConcat(a, b);
    CommitsOfConcat(a0, b0);
    ShiftConcat(s, CommitsOf(a), CommitsOf(b), CommitsOf(a0), CommitsOf(b0));
  }

  /** Writes with non-empty paths whose first segments are keys of the kind of `t`. */
  ghost predicate Shaped(t: Tree, cs: seq<Commit>) {
    forall c | c in cs :: c.path != [] && c.path[0].Idx? == IsArray(t)
  }

  lemma ShapedConcat(t: Tree, a: seq<Commit>, b: seq<Commit>)
    requires Shaped(t, a) && Shaped(t, b)
    ensures Shaped(t, a + b)
  {
  }

  /** Writes moved under one key of the kind of `t` are shaped for `t`. */
  lemma UnderShaped(t: Tree, nk: Key, cs: seq<Commit>)
    requires nk.Idx? == IsArray(t)
    ensures Shaped(t, Under([nk], cs))
  {
    forall c | c in Under([nk], cs)
      ensures c.path != [] && c.path[0] == nk
    {
      var j :| 0 <= j < |cs| && Under([nk], cs)[j] == c;
    }
  }

  /** The writes of one entry, from the root, all lie below its new key. */
  lemma EntryShaped(visit: Visitor, t: Tree, i: nat, pos: seq<Key>)
    requires Local(visit) && Renamable(visit, t) && i < |Entries(t)|
    ensures Shaped(t, CommitsOf(EntryVisits(visit, t, i, [], pos)))
  {
    var (k, v) := Entries(t)[i];
    var d := Resolve(visit, v, k, []);
    var nk := NewKey(visit, k, v);
    LocalResolve(visit, v, k, [] + [k]);
    LocalFinalPath(visit, [], k, v);
    assert [] + [k] == [k] && [] + [nk] == [nk];
    EntryWrites(visit, t, i, [], pos, k, v, d);
    assert nk.Idx? == IsArray(t);
    if IsObject(v) && !d.skip && !(IsEmpty(v) && !d.remove) {
      EntryIsChild(t, i);
      StackShift(visit, v, 0, [nk], pos + [k]);
      UnderShaped(t, nk, CommitsOf(VisitsFrom(visit, v, 0, [], pos + [k])));
    }
  }

  /** Walking a renamable container from the root writes below its new keys only. */
  lemma {:induction false} RootWritesShaped(visit: Visitor, t: Tree, i: nat, pos: seq<Key>)
    requires Local(visit) && Renamable(visit, t)
    ensures Shaped(t, CommitsOf(VisitsFrom(visit, t, i, [], pos)))
    decreases |Entries(t)| - i
  {
    if i < |Entries(t)| {
      var a := EntryVisits(visit, t, i, [], pos);
      var b := VisitsFrom(visit, t, i + 1, [], pos);
      assert VisitsFrom(visit, t, i, [], pos) == a + b;
      EntryShaped(visit, t, i, pos);
      RootWritesShaped(visit, t, i + 1, pos);
      CommitsOfConcat(a, b);
      ShapedConcat(t, CommitsOf(a), CommitsOf(b));
    }
  }

  /** Writes under key `k` of a container whose slot `k` already holds container `x` go into `x`. */
  lemma {:induction false} ApplyUnderSlot(o: Tree, k: Key, x: Tree, cs: seq<Commit>)
    requires IsObject(o) && IsObject(x)
    requires forall c | c in cs :: c.path != []
    ensures Apply(WriteSlot(o, k, x), Under([k], cs)) == WriteSlot(o, k, Apply(x, cs))
    decreases |cs|
  {
    if cs != [] {
      var c := cs[0];
      var o' := WriteSlot(o, k, x);
      var x' := SetPath(x, c.path, c.value);
      assert Under([k], cs)[0] == Commit([k] + c.path, c.value);
      assert Under([k], cs)[1..] == Under([k], cs[1..]);
      assert ([k] + c.path)[0] == k && ([k] + c.path)[1..] == c.path && ([k] + c.path)[1] == c.path[0];
      SetPathFirstStep(o', [k] + c.path, c.value, x);
      WriteSlotTwice(o, k, x, x');
      assert forall c' | c' in cs[1..] :: c' in cs;
      ApplyUnderSlot(o, k, x', cs[1..]);
    }
  }

  /** Writes under a key that holds no container start from a new empty container for the next segment. */
  lemma ApplyUnderFresh(o: Tree, k: Key, cs: seq<Commit>)
    requires IsObject(o) && !IsObject(Lookup(o, k)) && cs != []
    requires forall c | c in cs :: c.path != []
    ensures Apply(o, Under([k], cs)) == WriteSlot(o, k, Apply(EmptyFor(cs[0].path[0]), cs))
  {
    var c := cs[0];
    assert c in cs;
    var e := EmptyFor(c.path[0]);
    var x := SetPath(e, c.path, c.value);
    var u := Under([k], cs);
    var p := [k] + c.path;
    assert u[0] == Commit(p, c.value);
    assert u[1..] == Under([k], cs[1..]);
    assert p[0] == k && p[1..] == c.path && p[1] == c.path[0];
    assert Base(Lookup(o, k), p[1]) == e;
    SetPathFirstStep(o, p, c.value, e);
    assert SetPath(o, p, c.value) == WriteSlot(o, k, x);
    assert Apply(o, u) == Apply(WriteSlot(o, k, x), u[1..]);
    assert Apply(e, cs) == Apply(x, cs[1..]);
    assert forall c' | c' in cs[1..] :: c' in cs;
    ApplyUnderSlot(o, k, x, cs[1..]);
  }

  /** Writing keeps every key a container already had and adds the first segment of its path. */
  lemma {:induction false} ApplyKeepsKeys(o: Tree, cs: seq<Commit>)
    requires IsObject(o)
    requires forall c | c in cs :: c.path != []
    ensures IsObject(Apply(o, cs))
    ensures forall k | k in o.keys :: k in Apply(o, cs).keys
    ensures cs != [] ==> cs[0].path[0] in Apply(o, cs).keys
    decreases |cs|
  {
    if cs != [] {
      var o' := SetPath(o, cs[0].path, cs[0].value);
      var newValue := if |cs[0].path| == 1 then cs[0].value else Base(Lookup(o, cs[0].path[0]), cs[0].path[1]);
      SetPathFirstStep(o, cs[0].path, cs[0].value, newValue);
      assert forall c' | c' in cs[1..] :: c' in cs;
      ApplyKeepsKeys(o', cs[1..]);
    }
  }

  /**
    A non-empty container entry whose walk below wrote `below` (relative to
    it): under a fresh key those writes build its rebuild there, and leave
    the output alone when nothing survived.
   */
  lemma ContainerRebuilt(visit: Visitor, v: Tree, pos: seq<Key>, nk: Key, acc: Tree)
    requires Local(visit) && Renamable(visit, v) && IsObject(acc) && !IsObject(Lookup(acc, nk))
    requires Apply(EmptyLike(v), CommitsOf(VisitsFrom(visit, v, 0, [], pos))) == RebuildFrom(visit, v, 0, EmptyLike(v))
    ensures var c := RebuildFrom(visit, v, 0, EmptyLike(v));
      Apply(acc, Under([nk], CommitsOf(VisitsFrom(visit, v, 0, [], pos))))
        == if c == EmptyLike(v) then acc else WriteSlot(acc, nk, c)
  {
    var below := CommitsOf(VisitsFrom(visit, v, 0, [], pos));
    var c := RebuildFrom(visit, v, 0, EmptyLike(v));
    if below == [] {
      assert Under([nk], below) == [];
    } else {
      RootWritesShaped(visit, v, 0, pos);
      assert below[0] in below;
      assert EmptyFor(below[0].path[0]) == EmptyLike(v);
      ApplyUnderFresh(acc, nk, below);
      ApplyKeepsKeys(EmptyLike(v), below);
      assert below[0].path[0] in c.keys;
    }
  }

  /** One entry: the writes it makes, applied to `acc`, are the rebuild's step, which touches only its new key. */
  lemma EntryRebuilt(visit: Visitor, t: Tree, i: nat, pos: seq<Key>, acc: Tree)
    requires Local(visit) && Renamable(visit, t) && IsObject(acc) && i < |Entries(t)|
    requires !IsObject(Lookup(acc, NewKey(visit, Entries(t)[i].0, Entries(t)[i].1)))
    requires ChildRebuilt(visit, t, i, pos)
    ensures Apply(acc, CommitsOf(EntryVisits(visit, t, i, [], pos))) == RebuildStep(visit, t, i, acc)
    ensures IsObject(RebuildStep(visit, t, i, acc))
    ensures forall j :: j != NewKey(visit, Entries(t)[i].0, Entries(t)[i].1) ==>
      Lookup(RebuildStep(visit, t, i, acc), j) == Lookup(acc, j)
  {
    var (k, v) := Entries(t)[i];
    var d := Resolve(visit, v, k, []);
    var nk := NewKey(visit, k, v);
    LocalResolve(visit, v, k, [] + [k]);
    LocalFinalPath(visit, [], k, v);
    assert [] + [k] == [k] && [] + [nk] == [nk];
    EntryWrites(visit, t, i, [], pos, k, v, d);
    if IsObject(v) && !d.skip && !IsEmpty(v) {
      EntryIsChild(t, i);
      StackShift(visit, v, 0, [nk], pos + [k]);
      ContainerRebuilt(visit, v, pos + [k], nk, acc);
    }
  }

  /** A container entry of a renamable container is itself renamable. */
  lemma RenamableEntry(visit: Visitor, t: Tree, i: nat)
    requires Renamable(visit, t) && i < |Entries(t)| && IsObject(Entries(t)[i].1)
    ensures Entries(t)[i].1 < t && Renamable(visit, Entries(t)[i].1)
  {
    EntryIsChild(t, i);
  }

  /** A customizer that ignores the path, over a tree whose renames keep keys apart. */
  ghost predicate Rewrites(visit: Visitor, t: Tree) {
    Local(visit) && Renamable(visit, t)
  }

  /** The new keys of entries `i ..` hold no container in `acc` yet. */
  ghost predicate KeysFree(visit: Visitor, t: Tree, i: nat, acc: Tree) {
    forall j :: i <= j < |Entries(t)| ==> !IsObject(Lookup(acc, NewKey(visit, Entries(t)[j].0, Entries(t)[j].1)))
  }

  /** A new empty container holds nothing under any key. */
  lemma EmptyKeysFree(visit: Visitor, v: Tree)
    ensures KeysFree(visit, v, 0, EmptyLike(v))
  {
  }

  /** After entry `i` is rebuilt, the new keys of the later entries are still free. */
  lemma LaterKeysFree(visit: Visitor, t: Tree, i: nat, acc: Tree, next: Tree)
    requires Renamable(visit, t) && i < |Entries(t)| && KeysFree(visit, t, i, acc)
    requires forall j :: j != NewKey(visit, Entries(t)[i].0, Entries(t)[i].1) ==> Lookup(next, j) == Lookup(acc, j)
    ensures KeysFree(visit, t, i + 1, next)
  {
    forall j | i + 1 <= j < |Entries(t)|
      ensures !IsObject(Lookup(next, NewKey(visit, Entries(t)[j].0, Entries(t)[j].1)))
    {
      assert NewKey(visit, Entries(t)[j].0, Entries(t)[j].1) != NewKey(visit, Entries(t)[i].0, Entries(t)[i].1);
    }
  }

  /** A container entry's walk from the root rebuilds it (the induction hypothesis for entry `i`). */
  ghost predicate ChildRebuilt(visit: Visitor, t: Tree, i: nat, pos: seq<Key>)
    requires i < |Entries(t)|
  {
    var (k, v) := Entries(t)[i];
    IsObject(v) ==>
      Apply(EmptyLike(v), CommitsOf(VisitsFrom(visit, v, 0, [], pos + [k]))) == RebuildFrom(visit, v, 0, EmptyLike(v))
  }

  lemma {:induction false} RebuildChild(visit: Visitor, t: Tree, i: nat, pos: seq<Key>)
    requires Rewrites(visit, t) && i < |Entries(t)|
    ensures ChildRebuilt(visit, t, i, pos)
    decreases t, |Entries(t)| - i, 0
  {
    var (k, v) := Entries(t)[i];
    if IsObject(v) {
      RenamableEntry(visit, t, i);
      EmptyKeysFree(visit, v);
      RebuildFromWalk(visit, v, 0, pos + [k], EmptyLike(v));
    }
  }

  /** Entry `i` rebuilt onto `acc`, leaving the later entries' keys free. */
  lemma {:induction false} EntryStep(visit: Visitor, t: Tree, i: nat, pos: seq<Key>, acc: Tree)
    requires Rewrites(visit, t) && IsObject(acc) && i < |Entries(t)| && KeysFree(visit, t, i, acc)
    ensures Apply(acc, CommitsOf(EntryVisits(visit, t, i, [], pos))) == RebuildStep(visit, t, i, acc)
    ensures IsObject(RebuildStep(visit, t, i, acc)) && KeysFree(visit, t, i + 1, RebuildStep(visit, t, i, acc))
    decreases t, |Entries(t)| - i, 1
  {
    RebuildChild(visit, t, i, pos);
    assert !IsObject(Lookup(acc, NewKey(visit, Entries(t)[i].0, Entries(t)[i].1)));
    EntryRebuilt(visit, t, i, pos, acc);
    LaterKeysFree(visit, t, i, acc, RebuildStep(visit, t, i, acc));
  }

  /** The writes of entries `i ..`, walked from the root onto `acc`, give their rebuild. */
  ghost predicate RebuiltFrom(visit: Visitor, t: Tree, i: nat, pos: seq<Key>, acc: Tree) {
    Apply(acc, CommitsOf(VisitsFrom(visit, t, i, [], pos))) == RebuildFrom(visit, t, i, acc)
  }

  /** Entry `i`'s writes, then the rest's, give the rebuild from `i`. */
  lemma RebuildFromStep(visit: Visitor, t: Tree, i: nat, pos: seq<Key>, acc: Tree)
    requires i < |Entries(t)|
    requires Apply(acc, CommitsOf(EntryVisits(visit, t, i, [], pos))) == RebuildStep(visit, t, i, acc)
    requires RebuiltFrom(visit, t, i + 1, pos, RebuildStep(visit, t, i, acc))
    ensures RebuiltFrom(visit, t, i, pos, acc)
  {
    EntryThenRest(visit, t, i, [], pos, acc);
  }

  lemma RebuiltPastEnd(visit: Visitor, t: Tree, i: nat, pos: seq<Key>, acc: Tree)
    requires |Entries(t)| <= i
    ensures RebuiltFrom(visit, t, i, pos, acc)
  {
  }

  /**
    Walking entries `i ..` of `t` from the root, onto an output container
    whose slots for their new keys hold no container yet, writes exactly
    the rebuild of those entries.
   */
  lemma {:induction false} RebuildFromWalk(visit: Visitor, t: Tree, i: nat, pos: seq<Key>, acc: Tree)
    requires Rewrites(visit, t) && IsObject(acc) && KeysFree(visit, t, i, acc)
    ensures RebuiltFrom(visit, t, i, pos, acc)
    decreases t, |Entries(t)| - i, 3
  {
    if i < |Entries(t)| {
      RebuildFromEntry(visit, t, i, pos, acc);
    } else {
      RebuiltPastEnd(visit, t, i, pos, acc);
    }
  }

  /** The induction step of `RebuildFromWalk`, at an entry `i`. */
  lemma {:induction false} RebuildFromEntry(visit: Visitor, t: Tree, i: nat, pos: seq<Key>, acc: Tree)
    requires Rewrites(visit, t) && IsObject(acc) && i < |Entries(t)| && KeysFree(visit, t, i, acc)
    ensures RebuiltFrom(visit, t, i, pos, acc)
    decreases t, |Entries(t)| - i, 2
  {
    EntryStep(visit, t, i, pos, acc);
    RebuildFromWalk(visit, t, i + 1, pos, RebuildStep(visit, t, i, acc));
    RebuildFromStep(visit, t, i, pos, acc);
  }

  /**
    For a local customizer whose renames keep every container well formed,
    the walk's output is the rebuild of the input.
   */
  lemma WalkIsRebuild(visit: Visitor, t: Tree)
    requires Local(visit) && Renamable(visit, t)
    ensures Walk(visit, t) == Rebuild(visit, t)
  {
    EmptyKeysFree(visit, t);
    RebuildFromWalk(visit, t, 0, [], EmptyLike(t));
  }
}
