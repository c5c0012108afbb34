/**
  Laws of the customizer calls a walk makes: where each call stands in the
  input, which path it is shown, when the walk goes below a node, and that
  a walk that never skips calls the customizer on every position in
  preorder.
 */
module WalkLaws {
  import opened Wrappers
  import opened JsValue
  import opened Walker

  /**
    The path shown to the customizer for the node at location `q` below a
    container walked with stack `stack`: each ancestor contributes its key,
    renamed by its own directive when that directive has `key` but no
    `path`.
   */
  function ReportedPath(visit: Visitor, t: Tree, stack: seq<Key>, q: seq<Key>): (p: seq<Key>)
    requires q != []
    ensures |p| == |stack| + |q| && p[|p| - 1] == q[|q| - 1]
    decreases |q|
  {
    var path := stack + [q[0]];
    if |q| == 1 then path
    else
      var v := Lookup(t, q[0]);
      ReportedPath(visit, v, ChildStack(Resolve(visit, v, q[0], path), path), q[1..])
  }

  /**
    A call made while walking `t` (at input location `pos`, with stack
    `stack`) is about a node strictly below `pos`: it is shown that node's
    value, its own key and its reported path, and gets the directive the
    customizer returns for exactly those arguments.
   */
  predicate Placed(visit: Visitor, t: Tree, stack: seq<Key>, pos: seq<Key>, x: Visit) {
    && |x.pos| > |pos| && x.pos[..|pos|] == pos
    && var q := x.pos[|pos|..];
       && x.value == At(t, q)
       && x.key == q[|q| - 1]
       && x.path == ReportedPath(visit, t, stack, q)
       && x.directive == Resolve(visit, x.value, x.key, x.path)
  }

  /** A call placed below child `k` of `t` is placed below `t`. */
  lemma PlacedLift(visit: Visitor, t: Tree, stack: seq<Key>, pos: seq<Key>, k: Key, x: Visit)
    requires Placed(visit, Lookup(t, k), ChildStack(Resolve(visit, Lookup(t, k), k, stack + [k]), stack + [k]), pos + [k], x)
    ensures Placed(visit, t, stack, pos, x)
  {
    var q' := x.pos[|pos| + 1..];
    var q := x.pos[|pos|..];
    assert x.pos[..|pos|] == (pos + [k])[..|pos|] == pos;
    assert q == [k] + q' by {
      assert x.pos[|pos|] == (x.pos[..|pos| + 1])[|pos|] == k;
    }
    assert q[1..] == q';
  }

  lemma {:induction false} EntryPlaced(visit: Visitor, t: Tree, i: nat, stack: seq<Key>, pos: seq<Key>)
    requires i < |Entries(t)|
    ensures forall x | x in EntryVisits(visit, t, i, stack, pos) :: Placed(visit, t, stack, pos, x)
    decreases t, |Entries(t)| - i, 0
  {
    var (key, value) := Entries(t)[i];
    var path := stack + [key];
    var d := Resolve(visit, value, key, path);
    var vs := EntryVisits(visit, t, i, stack, pos);
    var here := Visit(value, key, path, pos + [key], d);
    assert (pos + [key])[..|pos|] == pos;
    assert (pos + [key])[|pos|..] == [key];
    assert ReportedPath(visit, t, stack, [key]) == path;
    assert Placed(visit, t, stack, pos, here);
    if IsObject(value) && !d.skip {
      EntryIsChild(t, i);
      var below := VisitsFrom(visit, value, 0, ChildStack(d, path), pos + [key]);
      assert vs == [here] + below;
      VisitsPlaced(visit, value, 0, ChildStack(d, path), pos + [key]);
      forall x | x in below
        ensures Placed(visit, t, stack, pos, x)
      {
        PlacedLift(visit, t, stack, pos, key, x);
      }
    }
  }

  /** Every call of a walk is placed: its arguments and directive are fixed by its position. */
  lemma {:induction false} VisitsPlaced(visit: Visitor, t: Tree, i: nat, stack: seq<Key>, pos: seq<Key>)
    ensures forall x | x in VisitsFrom(visit, t, i, stack, pos) :: Placed(visit, t, stack, pos, x)
    decreases t, |Entries(t)| - i, 1
  {
    if i < |Entries(t)| {
      EntryPlaced(visit, t, i, stack, pos);
      VisitsPlaced(visit, t, i + 1, stack, pos);
    }
  }

  /** The path reported one level further down: the parent's child stack plus the child's key. */
  lemma {:induction false} ReportedPathSnoc(visit: Visitor, t: Tree, stack: seq<Key>, q: seq<Key>, k: Key)
    requires q != []
    ensures var p := ReportedPath(visit, t, stack, q);
      ReportedPath(visit, t, stack, q + [k])
        == ChildStack(Resolve(visit, At(t, q), q[|q| - 1], p), p) + [k]
    decreases |q|
  {
    assert (q + [k])[0] == q[0];
    var path := stack + [q[0]];
    var v := Lookup(t, q[0]);
    var cs := ChildStack(Resolve(visit, v, q[0], path), path);
    if |q| > 1 {
      assert (q + [k])[1..] == q[1..] + [k];
      ReportedPathSnoc(visit, v, cs, q[1..], k);
      assert ReportedPath(visit, t, stack, q + [k]) == ReportedPath(visit, v, cs, q[1..] + [k]);
      assert ReportedPath(visit, t, stack, q) == ReportedPath(visit, v, cs, q[1..]);
      assert At(t, q) == At(v, q[1..]);
      assert q[|q| - 1] == q[1..][|q[1..]| - 1];
    } else {
      assert (q + [k])[1..] == [k];
      assert ReportedPath(visit, t, stack, q + [k]) == cs + [k];
      assert At(t, q) == At(v, []);
    }
  }

  /** A call of a walk from the root: its arguments and directive, read off its location. */
  lemma CallAt(visit: Visitor, t: Tree, x: Visit)
    requires x in VisitsFrom(visit, t, 0, [], [])
    ensures x.pos != []
    ensures x.value == At(t, x.pos) && x.key == x.pos[|x.pos| - 1]
    ensures x.path == ReportedPath(visit, t, [], x.pos)
    ensures x.directive == Resolve(visit, x.value, x.key, x.path)
  {
    VisitsPlaced(visit, t, 0, [], []);
    assert Placed(visit, t, [], [], x);
    assert x.pos[0..] == x.pos;
  }

  /** Two calls about the same location are the same call: same value, key, path and directive. */
  lemma SameCall(visit: Visitor, t: Tree, x: Visit, y: Visit)
    requires x in VisitsFrom(visit, t, 0, [], []) && y in VisitsFrom(visit, t, 0, [], [])
    requires x.pos == y.pos
    ensures x == y
  {
    CallAt(visit, t, x);
    CallAt(visit, t, y);
  }

  /**
    Renames propagate: the path shown to a child is its parent's path after
    the parent's directive (renamed last segment when the parent has `key`
    and no `path`), plus the child's key.  Children of a parent that
    redirected with `path` still see the parent's natural path.
   */
  lemma ChildPath(visit: Visitor, t: Tree, x: Visit, y: Visit)
    requires x in VisitsFrom(visit, t, 0, [], []) && y in VisitsFrom(visit, t, 0, [], [])
    requires y.pos == x.pos + [y.key]
    ensures y.path == ChildStack(x.directive, x.path) + [y.key]
    ensures x.directive.path.None? ==> y.path == FinalPath(x.directive, x.path) + [y.key]
    ensures x.directive.path.Some? ==> y.path == x.path + [y.key]
  {
    CallAt(visit, t, x);
    CallAt(visit, t, y);
    ReportedPathSnoc(visit, t, [], x.pos, y.key);
  }

  /**
    The walk reaches a node only through its ancestors: for every call and
    every ancestor strictly between `pos` and it, some call of the walk was
    about that ancestor, which was a container and was not skipped.
   */
  ghost predicate Descended(vs: seq<Visit>, pos: seq<Key>, x: Visit) {
    forall n :: |pos| < n < |x.pos| ==> Entered(vs, x.pos[..n])
  }

  /** Some call of `vs` was about location `p`, a container the walk descended into. */
  ghost predicate Entered(vs: seq<Visit>, p: seq<Key>) {
    exists y: Visit :: y in vs && y.pos == p && IsObject(y.value) && !y.directive.skip
  }

  ghost predicate AllDescended(vs: seq<Visit>, pos: seq<Key>) {
    forall x | x in vs :: Descended(vs, pos, x)
  }

  lemma {:induction false} EntryDescended(visit: Visitor, t: Tree, i: nat, stack: seq<Key>, pos: seq<Key>)
    requires i < |Entries(t)|
    ensures AllDescended(EntryVisits(visit, t, i, stack, pos), pos)
    decreases t, |Entries(t)| - i, 0
  {
    var (key, value) := Entries(t)[i];
    var path := stack + [key];
    var d := Resolve(visit, value, key, path);
    var vs := EntryVisits(visit, t, i, stack, pos);
    var here := Visit(value, key, path, pos + [key], d);
    if IsObject(value) && !d.skip {
      EntryIsChild(t, i);
      var below := VisitsFrom(visit, value, 0, ChildStack(d, path), pos + [key]);
      assert vs == [here] + below;
      VisitsDescended(visit, value, 0, ChildStack(d, path), pos + [key]);
      VisitsPlaced(visit, value, 0, ChildStack(d, path), pos + [key]);
      forall x | x in vs
        ensures Descended(vs, pos, x)
      {
        if x in below {
          forall n | |pos| < n < |x.pos|
            ensures Entered(vs, x.pos[..n])
          {
            if n == |pos| + 1 {
              assert x.pos[..|pos| + 1] == (x.pos[..|pos| + 1])[..|pos| + 1] == pos + [key];
              assert here in vs;
            } else {
              assert Descended(below, pos + [key], x);
              assert Entered(below, x.pos[..n]);
              var y :| y in below && y.pos == x.pos[..n] && IsObject(y.value) && !y.directive.skip;
              assert y in vs;
            }
          }
        } else {
          assert x == here;
        }
      }
    } else {
      assert vs == [here];
    }
  }

  /** An ancestry shown inside `vs` is shown inside any `ws` holding every call of `vs`. */
  lemma DescendedWiden(vs: seq<Visit>, ws: seq<Visit>, pos: seq<Key>, x: Visit)
    requires Descended(vs, pos, x) && forall y | y in vs :: y in ws
    ensures Descended(ws, pos, x)
  {
    forall n | |pos| < n < |x.pos|
      ensures Entered(ws, x.pos[..n])
    {
      assert Entered(vs, x.pos[..n]);
      var y :| y in vs && y.pos == x.pos[..n] && IsObject(y.value) && !y.directive.skip;
      assert y in ws;
    }
  }

  lemma {:induction false} VisitsDescended(visit: Visitor, t: Tree, i: nat, stack: seq<Key>, pos: seq<Key>)
    ensures AllDescended(VisitsFrom(visit, t, i, stack, pos), pos)
    decreases t, |Entries(t)| - i, 1
  {
    if i < |Entries(t)| {
      var a := EntryVisits(visit, t, i, stack, pos);
      var b := VisitsFrom(visit, t, i + 1, stack, pos);
      assert VisitsFrom(visit, t, i, stack, pos) == a + b;
      EntryDescended(visit, t, i, stack, pos);
      VisitsDescended(visit, t, i + 1, stack, pos);
      forall x | x in a + b
        ensures Descended(a + b, pos, x)
      {
        if x in a {
          DescendedWiden(a, a + b, pos, x);
        } else {
          DescendedWiden(b, a + b, pos, x);
        }
      }
    }
  }

  /**
    Nothing beneath a skipped node, or beneath a leaf, is visited: no call
    of the walk is about a location strictly below such a call's location.
   */
  lemma SkipHidesSubtree(visit: Visitor, t: Tree, x: Visit, y: Visit)
    requires x in VisitsFrom(visit, t, 0, [], []) && y in VisitsFrom(visit, t, 0, [], [])
    requires x.directive.skip || !IsObject(x.value)
    ensures !(|x.pos| < |y.pos| && y.pos[..|x.pos|] == x.pos)
  {
    var vs := VisitsFrom(visit, t, 0, [], []);
    if |x.pos| < |y.pos| && y.pos[..|x.pos|] == x.pos {
      CallAt(visit, t, x);
      VisitsDescended(visit, t, 0, [], []);
      assert Descended(vs, [], y);
      assert Entered(vs, y.pos[..|x.pos|]);
      var z :| z in vs && z.pos == y.pos[..|x.pos|] && IsObject(z.value) && !z.directive.skip;
      SameCall(visit, t, x, z);
      assert false;
    }
  }

  /** The locations of a container's nodes in preorder: each entry, then the nodes inside it. */
  function PositionsFrom(t: Tree, i: nat, pos: seq<Key>): seq<seq<Key>>
    decreases t, |Entries(t)| - i
  {
    if i >= |Entries(t)| then []
    else
      var (key, value) := Entries(t)[i];
      EntryIsChildIfObject(t, i);
      [pos + [key]] + (if IsObject(value) then PositionsFrom(value, 0, pos + [key]) else []) + PositionsFrom(t, i + 1, pos)
  }

  lemma EntryIsChildIfObject(t: Tree, i: nat)
    requires i < |Entries(t)|
    ensures IsObject(Entries(t)[i].1) ==> Entries(t)[i].1 < t
  {
    if IsObject(Entries(t)[i].1) {
      EntryIsChild(t, i);
    }
  }

  function PosOf(vs: seq<Visit>): (ps: seq<seq<Key>>)
    ensures |ps| == |vs| && forall j :: 0 <= j < |vs| ==> ps[j] == vs[j].pos
  {
    seq(|vs|, j requires 0 <= j < |vs| => vs[j].pos)
  }

  /** The customizer never asks to skip. */
  ghost predicate NeverSkips(visit: Visitor) {
    forall v, k, p :: !Resolve(visit, v, k, p).skip
  }

  lemma PosOfConcat(a: seq<Visit>, b: seq<Visit>)
    ensures PosOf(a + b) == PosOf(a) + PosOf(b)
  {
  }

  /** The locations of the calls for entry `i`: the entry, then the nodes inside it. */
  lemma {:induction false} EntryPositions(visit: Visitor, t: Tree, i: nat, stack: seq<Key>, pos: seq<Key>)
    requires NeverSkips(visit) && i < |Entries(t)|
    ensures var (key, value) := Entries(t)[i];
      PosOf(EntryVisits(visit, t, i, stack, pos))
        == [pos + [key]] + (if IsObject(value) then PositionsFrom(value, 0, pos + [key]) else [])
    decreases t, |Entries(t)| - i, 0
  {
    var (key, value) := Entries(t)[i];
    var path := stack + [key];
    var d := Resolve(visit, value, key, path);
    var here := Visit(value, key, path, pos + [key], d);
    assert !d.skip;
    assert PosOf([here]) == [pos + [key]];
    if IsObject(value) {
      EntryIsChild(t, i);
      var below := VisitsFrom(visit, value, 0, ChildStack(d, path), pos + [key]);
      assert EntryVisits(visit, t, i, stack, pos) == [here] + below;
      CoversAllPositions(visit, value, 0, ChildStack(d, path), pos + [key]);
      PosOfConcat([here], below);
      assert PosOf([here] + below) == [pos + [key]] + PositionsFrom(value, 0, pos + [key]);
    } else {
      assert EntryVisits(visit, t, i, stack, pos) == [here];
    }
  }

  /**
    A walk whose customizer never skips calls it exactly at the locations
    of the input's nodes, in preorder, each as often as it occurs there.
   */
  lemma {:induction false} CoversAllPositions(visit: Visitor, t: Tree, i: nat, stack: seq<Key>, pos: seq<Key>)
    requires NeverSkips(visit)
    ensures PosOf(VisitsFrom(visit, t, i, stack, pos)) == PositionsFrom(t, i, pos)
    decreases t, |Entries(t)| - i, 1
  {
    if i < |Entries(t)| {
      var a := EntryVisits(visit, t, i, stack, pos);
      var b := VisitsFrom(visit, t, i + 1, stack, pos);
      assert VisitsFrom(visit, t, i, stack, pos) == a + b;
      PosOfConcat(a, b);
      EntryPositions(visit, t, i, stack, pos);
      CoversAllPositions(visit, t, i + 1, stack, pos);
    }
  }
}
