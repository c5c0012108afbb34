/**
  Path-Set (src/set.js): write a value into a nested object/array at a
  path, creating missing or primitive intermediate slots as `[]` when the
  next segment is a number and `{}` otherwise.

  `SetPath` is the reference definition (one level per recursive call);
  `Set` is the source's loop, which moves a cursor `nested` down the root
  and assigns `nested[key]` in place.  The root object is a `Collection`
  whose `value` the loop reassigns; the cursor is represented by its
  location in that value, the prefix of `path` walked so far.
 */
module PathSet {
  import opened JsValue

  /** The container `set` descends into: the existing one, or a new one shaped by the next segment. */
  function Base(objValue: Tree, next: Key): (r: Tree)
    ensures IsObject(r)
  {
    if IsObject(objValue) then objValue else EmptyFor(next)
  }

  /** The result of `set(t, path, value)`, level by level. */
  function SetPath(t: Tree, path: seq<Key>, value: Tree): (r: Tree)
    ensures IsObject(t) ==> IsObject(r) && IsArray(r) == IsArray(t)
    decreases |path|
  {
    if !IsObject(t) || path == [] then t
    else if |path| == 1 then WriteSlot(t, path[0], value)
    else WriteSlot(t, path[0], SetPath(Base(Lookup(t, path[0]), path[1]), path[1..], value))
  }

  // ---------------------------------------------------------------------
  // Facts about locations, used by the loop of Set and by the lemmas below.

  /** `t` holds key `k` in both its insertion order and its table, within the array length. */
  predicate Holds(t: Tree, k: Key) {
    IsObject(t) && k in t.keys && k in t.kids && Grow(t.shape, k) == t.shape
  }

  lemma WriteSlotTwice(t: Tree, k: Key, a: Tree, b: Tree)
    ensures WriteSlot(WriteSlot(t, k, a), k, b) == WriteSlot(t, k, b)
  {
  }

  lemma WriteSlotSame(t: Tree, k: Key)
    requires Holds(t, k)
    ensures WriteSlot(t, k, t.kids[k]) == t
  {
  }

  lemma WriteSlotHolds(t: Tree, k: Key, v: Tree)
    requires IsObject(t)
    ensures Holds(WriteSlot(t, k, v), k)
  {
  }

  /** A path that holds at every step. */
  predicate Reached(t: Tree, loc: seq<Key>)
    decreases |loc|
  {
    loc == [] || (Holds(t, loc[0]) && Reached(t.kids[loc[0]], loc[1..]))
  }

  lemma {:induction false} GraftTwice(t: Tree, loc: seq<Key>, a: Tree, b: Tree)
    ensures Graft(Graft(t, loc, a), loc, b) == Graft(t, loc, b)
    decreases |loc|
  {
    if loc != [] {
      var k := loc[0];
      GraftTwice(Lookup(t, k), loc[1..], a, b);
      WriteSlotTwice(t, k, Graft(Lookup(t, k), loc[1..], a), Graft(Lookup(t, k), loc[1..], b));
    }
  }

  lemma {:induction false} GraftSnoc(t: Tree, loc: seq<Key>, k: Key, s: Tree)
    ensures Graft(t, loc + [k], s) == Graft(t, loc, WriteSlot(At(t, loc), k, s))
    decreases |loc|
  {
    if loc != [] {
      assert (loc + [k])[1..] == loc[1..] + [k];
      GraftSnoc(Lookup(t, loc[0]), loc[1..], k, s);
    }
  }

  lemma {:induction false} GraftAt(t: Tree, loc: seq<Key>, x: Tree)
    requires Reached(t, loc)
    ensures Reached(Graft(t, loc, x), loc) && At(Graft(t, loc, x), loc) == x
    decreases |loc|
  {
    if loc != [] {
      var k := loc[0];
      GraftAt(t.kids[k], loc[1..], x);
      WriteSlotHolds(t, k, Graft(t.kids[k], loc[1..], x));
    }
  }

  lemma {:induction false} GraftSelf(t: Tree, loc: seq<Key>)
    requires Reached(t, loc)
    ensures Graft(t, loc, At(t, loc)) == t
    decreases |loc|
  {
    if loc != [] {
      GraftSelf(t.kids[loc[0]], loc[1..]);
      WriteSlotSame(t, loc[0]);
    }
  }

  lemma {:induction false} ReachedSnoc(t: Tree, loc: seq<Key>, k: Key)
    requires Reached(t, loc) && Holds(At(t, loc), k)
    ensures Reached(t, loc + [k])
    decreases |loc|
  {
    if loc != [] {
      assert (loc + [k])[1..] == loc[1..] + [k];
      ReachedSnoc(t.kids[loc[0]], loc[1..], k);
    }
  }

  /** Following any non-empty location from a primitive, or from an empty container, gives `undefined`. */
  lemma {:induction false} AtBeyond(t: Tree, loc: seq<Key>)
    requires loc != [] && (!IsObject(t) || t.kids == map[])
    ensures At(t, loc) == Undef
    decreases |loc|
  {
    if |loc| > 1 {
      AtBeyond(Lookup(t, loc[0]), loc[1..]);
    }
  }

  // ---------------------------------------------------------------------
  // The source's loop.

  /** A reference to a JavaScript value that `set` may update in place. */
  class Collection {
    var value: Tree

    constructor (v: Tree)
      ensures value == v
    {
      value := v;
    }
  }

  /** Writing the step's own value at the cursor first does not change what `SetPath` produces. */
  lemma SetPathFirstStep(c: Tree, path: seq<Key>, value: Tree, newValue: Tree)
    requires IsObject(c) && path != []
    requires newValue == if |path| == 1 then value else Base(Lookup(c, path[0]), path[1])
    ensures SetPath(c, path, value) == WriteSlot(c, path[0], SetPath(newValue, path[1..], value))
  {
  }

  /**
    The loop's state after `index` steps: the cursor `nested` is the
    location `path[..index]`, which exists in `t` and (before the last step)
    holds a container; finishing `set` from there gives `SetPath` of the
    original root `v0`.
   */
  ghost predicate Cursor(v0: Tree, path: seq<Key>, value: Tree, t: Tree, index: nat)
    requires index <= |path|
  {
    && Reached(t, path[..index])
    && (index < |path| ==> IsObject(At(t, path[..index])))
    && SetPath(v0, path, value) == Graft(t, path[..index], SetPath(At(t, path[..index]), path[index..], value))
  }

  /** One step of the loop: `nested[key] = newValue` moves the cursor one segment down. */
  lemma {:induction false} SetStep(v0: Tree, path: seq<Key>, value: Tree, t: Tree, index: nat, newValue: Tree)
    requires index < |path| && Cursor(v0, path, value, t, index)
    requires newValue == if index == |path| - 1 then value else Base(Lookup(At(t, path[..index]), path[index]), path[index + 1])
    ensures Cursor(v0, path, value, Graft(t, path[..index], WriteSlot(At(t, path[..index]), path[index], newValue)), index + 1)
  {
    var loc, key := path[..index], path[index];
    var t' := Graft(t, loc, WriteSlot(At(t, loc), key, newValue));
    assert path[..index + 1] == loc + [key];
    StepReaches(t, loc, key, newValue);
    StepFinishes(t, loc, key, newValue, path[index..], value);
    assert path[index..][1..] == path[index + 1..];
  }

  /** After `nested[key] = newValue`, the cursor's new location exists and holds `newValue`. */
  lemma StepReaches(t: Tree, loc: seq<Key>, key: Key, newValue: Tree)
    requires Reached(t, loc) && IsObject(At(t, loc))
    ensures var t' := Graft(t, loc, WriteSlot(At(t, loc), key, newValue));
      Reached(t', loc + [key]) && At(t', loc + [key]) == newValue
  {
    var c := At(t, loc);
    var written := WriteSlot(c, key, newValue);
    var t' := Graft(t, loc, written);
    GraftAt(t, loc, written);
    WriteSlotHolds(c, key, newValue);
    ReachedSnoc(t', loc, key);
    AtSnoc(t', loc, key);
  }

  /** Finishing `set` from the new cursor gives what finishing it from the old one gave. */
  lemma StepFinishes(t: Tree, loc: seq<Key>, key: Key, newValue: Tree, rest: seq<Key>, value: Tree)
    requires Reached(t, loc) && IsObject(At(t, loc)) && rest != [] && rest[0] == key
    requires newValue == if |rest| == 1 then value else Base(Lookup(At(t, loc), key), rest[1])
    ensures var written := WriteSlot(At(t, loc), key, newValue);
      Graft(t, loc, SetPath(At(t, loc), rest, value))
        == Graft(Graft(t, loc, written), loc + [key], SetPath(newValue, rest[1..], value))
  {
    var c := At(t, loc);
    var written := WriteSlot(c, key, newValue);
    var t' := Graft(t, loc, written);
    var tail := SetPath(newValue, rest[1..], value);
    SetPathFirstStep(c, rest, value, newValue);
    GraftAt(t, loc, written);
    GraftSnoc(t', loc, key, tail);
    WriteSlotTwice(c, key, newValue, tail);
    GraftTwice(t, loc, written, WriteSlot(c, key, tail));
  }

  lemma {:induction false} AtSnoc(t: Tree, loc: seq<Key>, k: Key)
    ensures At(t, loc + [k]) == Lookup(At(t, loc), k)
    decreases |loc|
  {
    if loc != [] {
      assert (loc + [k])[1..] == loc[1..] + [k];
      AtSnoc(Lookup(t, loc[0]), loc[1..], k);
    }
  }

  /**
    `set(object, path, value)`, with `object` passed as `obj`: returns the same reference; a primitive is
    left as it is; otherwise the loop walks the path, reusing every
    container it finds and creating the missing ones.
   */
  method Set(obj: Collection, path: seq<Key>, value: Tree) returns (r: Collection)
    modifies obj
    ensures r == obj
    ensures !IsObject(old(obj.value)) || path == [] ==> obj.value == old(obj.value)
    ensures obj.value == SetPath(old(obj.value), path, value)
  {
    r := obj;
    if !IsObject(obj.value) {
      return;
    }
    ghost var v0 := obj.value;
    var nested: seq<Key> := [];
    var length := |path|;
    var lastIndex := length - 1;
    var index := 0;
    assert path[0..] == path;
    while index < length
      invariant 0 <= index <= length && nested == path[..index]
      invariant Cursor(v0, path, value, obj.value, index)
    {
      var key := path[index];
      var cursor := At(obj.value, nested);
      var newValue := value;
      if index != lastIndex {
        var objValue := Lookup(cursor, key);
        newValue := if IsObject(objValue) then objValue else EmptyFor(path[index + 1]);
      }
      SetStep(v0, path, value, obj.value, index, newValue);
      obj.value := Graft(obj.value, nested, WriteSlot(cursor, key, newValue));
      nested := nested + [key];
      index := index + 1;
      assert nested == path[..index];
    }
    assert path[..length] == path;
    GraftSelf(obj.value, path);
  }

  // ---------------------------------------------------------------------
  // What `set` promises, stated on SetPath.

  /** Get after set: following a non-empty path from an object after writing reaches the value written. */
  lemma {:induction false} SetPathGet(t: Tree, path: seq<Key>, value: Tree)
    requires IsObject(t) && path != []
    ensures At(SetPath(t, path, value), path) == value
    decreases |path|
  {
    if |path| > 1 {
      SetPathGet(Base(Lookup(t, path[0]), path[1]), path[1..], value);
    }
  }

  /**
    Frame: a location that leaves `path` at segment `j` (same first `j`
    segments, a different one at `j`) holds what it held before.
   */
  lemma {:induction false} SetPathFrame(t: Tree, path: seq<Key>, value: Tree, q: seq<Key>, j: nat)
    requires j < |path| && j < |q| && path[..j] == q[..j] && path[j] != q[j]
    ensures At(SetPath(t, path, value), q) == At(t, q)
    decreases j
  {
    if IsObject(t) && j > 0 {
      assert path[0] == q[0] by { assert path[..j][0] == q[..j][0]; }
      var old0 := Lookup(t, path[0]);
      var nested := Base(old0, path[1]);
      assert path[1..][..j - 1] == path[..j][1..] && q[1..][..j - 1] == q[..j][1..];
      SetPathFrame(nested, path[1..], value, q[1..], j - 1);
      if !IsObject(old0) {
        AtBeyond(nested, q[1..]);
        AtBeyond(old0, q[1..]);
      }
    }
  }

  /**
    The container at each level `i` of the path, after the write: the
    container found there before with only slot `path[i]` written (so all
    its other keys survive), or, where the slot held no object, a new
    `[]`/`{}` chosen by the type of `path[i]` holding that one slot.
   */
  lemma {:induction false} SetPathLevel(t: Tree, path: seq<Key>, value: Tree, i: nat)
    requires IsObject(t) && i < |path|
    ensures var r := SetPath(t, path, value);
      && (IsObject(At(t, path[..i])) ==> At(r, path[..i]) == WriteSlot(At(t, path[..i]), path[i], At(r, path[..i + 1])))
      && (!IsObject(At(t, path[..i])) ==> At(r, path[..i]) == WriteSlot(EmptyFor(path[i]), path[i], At(r, path[..i + 1])))
    decreases i
  {
    var r := SetPath(t, path, value);
    if i > 0 {
      var old0 := Lookup(t, path[0]);
      var nested := Base(old0, path[1]);
      SetPathLevel(nested, path[1..], value, i - 1);
      assert path[..i][1..] == path[1..][..i - 1];
      assert path[..i + 1][1..] == path[1..][..i];
      assert path[1..][i - 1] == path[i];
      if !IsObject(old0) && i > 1 {
        AtBeyond(nested, path[1..][..i - 1]);
        AtBeyond(old0, path[1..][..i - 1]);
      }
    }
  }

  /** `set({}, ['a', 0, 'b'], 1)` is `{a: [{b: 1}]}`: a number segment makes an array, a string an object. */
  lemma ShapeInferenceExample()
    ensures SetPath(Node(Object, [], map[]), [Str("a"), Idx(0), Str("b")], Leaf(Number(1)))
         == Node(Object, [Str("a")], map[Str("a") :=
              Node(Array(1), [Idx(0)], map[Idx(0) :=
                Node(Object, [Str("b")], map[Str("b") := Leaf(Number(1))])])])
  {
    var path := [Str("a"), Idx(0), Str("b")];
    var inner := SetPath(Node(Object, [], map[]), path[2..], Leaf(Number(1)));
    assert inner == Node(Object, [Str("b")], map[Str("b") := Leaf(Number(1))]);
    var middle := SetPath(Node(Array(0), [], map[]), path[1..], Leaf(Number(1)));
    assert path[1..][1..] == path[2..];
    assert middle == Node(Array(1), [Idx(0)], map[Idx(0) := inner]);
  }
}
