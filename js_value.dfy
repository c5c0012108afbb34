/**
  Stock wrappers: an optional value and a success/failure result.
 */
module Wrappers {
  datatype Option<+T> = None | Some(value: T) {
    function GetOr(default: T): T {
      match this
      case Some(v) => v
      case None => default
    }
  }

  datatype Result<+R, +E> = Success(value: R) | Failure(error: E)
}

/**
  The JavaScript values the walker and `set` work on: plain objects and
  arrays nested to any depth, with primitive leaves.

  An object keeps its own keys in insertion order (`keys`) beside the
  key-to-value table (`kids`).  An array is a container whose shape carries
  the JavaScript `length`; an index below the length that has no entry is a
  hole, which reads as `undefined`.
 */
module JsValue {
  import opened Wrappers

  /** A path segment: a property name (a JS string) or an array index (a JS number). */
  datatype Key = Str(name: string) | Idx(index: nat)

  /** Leaf values are opaque to the walker; numbers are modelled as integers. */
  datatype Primitive = Undefined | Null | Bool(b: bool) | Number(n: int) | Text(s: string)

  datatype Shape = Object | Array(length: nat)

  datatype Tree =
    | Leaf(prim: Primitive)
    | Node(shape: Shape, keys: seq<Key>, kids: map<Key, Tree>)

  const Undef: Tree := Leaf(Undefined)

  /** lodash `isObject` and the local `isObject` of src/set.js, restricted to plain objects and arrays. */
  predicate IsObject(t: Tree) {
    t.Node?
  }

  /** `Array.isArray` */
  predicate IsArray(t: Tree) {
    t.Node? && t.shape.Array?
  }

  /** lodash `isEmpty` on a container: an array of length 0, or an object without own keys. */
  predicate IsEmpty(t: Tree) {
    t.Node? && (if t.shape.Array? then t.shape.length == 0 else |t.keys| == 0)
  }

  /** `value[key]`: a missing slot, and any slot of a primitive, reads as `undefined`. */
  function Lookup(t: Tree, k: Key): Tree {
    if t.Node? && k in t.kids then t.kids[k] else Undef
  }

  /** A new empty container of the same kind as `t`: `Array.isArray(t) ? [] : {}`. */
  function EmptyLike(t: Tree): (r: Tree)
    ensures IsObject(r) && IsEmpty(r) && IsArray(r) == IsArray(t)
  {
    Node(if IsArray(t) then Array(0) else Object, [], map[])
  }

  /** The container `set` creates in front of segment `k`: `typeof k === 'number' ? [] : {}`. */
  function EmptyFor(k: Key): (r: Tree)
    ensures IsObject(r) && IsEmpty(r) && IsArray(r) == k.Idx?
  {
    Node(if k.Idx? then Array(0) else Object, [], map[])
  }

  /** The array length after `arr[k] = ...`. */
  function Grow(sh: Shape, k: Key): Shape {
    match sh
    case Object => Object
    case Array(n) => if k.Idx? && k.index >= n then Array(k.index + 1) else sh
  }

  /**
    `t[k] = v` on a container: a new key is appended to the insertion
    order, an existing one keeps its place.  Writing to a primitive has no
    effect (the walker never does it).
   */
  function WriteSlot(t: Tree, k: Key, v: Tree): (r: Tree)
    ensures IsObject(t) ==> IsObject(r) && IsArray(r) == IsArray(t) && Lookup(r, k) == v
    ensures forall j :: j != k ==> Lookup(r, j) == Lookup(t, j)
  {
    match t
    case Leaf(_) => t
    case Node(sh, keys, kids) => Node(Grow(sh, k), if k in keys then keys else keys + [k], kids[k := v])
  }

  /**
    What lodash `forEach` enumerates: an object's own keys in insertion
    order, an array's indices `0 .. length-1` (holes included, as
    `undefined`). Objects that lodash takes as array-like (an own `length`
    holding an array length) are not distinguished here.
   */
  function Entries(t: Tree): (es: seq<(Key, Tree)>)
    ensures forall i :: 0 <= i < |es| ==> es[i].1 == Lookup(t, es[i].0)
    ensures IsEmpty(t) || !IsObject(t) <==> es == []
  {
    match t
    case Leaf(_) => []
    case Node(Object, keys, _) => seq(|keys|, i requires 0 <= i < |keys| => (keys[i], Lookup(t, keys[i])))
    case Node(Array(n), _, _) => seq(n, i requires 0 <= i < n => (Idx(i), Lookup(t, Idx(i))))
  }

  /** A container entry is one of the container's own children, so it is smaller. */
  lemma EntryIsChild(t: Tree, i: nat)
    requires i < |Entries(t)| && IsObject(Entries(t)[i].1)
    ensures Entries(t)[i].0 in t.kids && Entries(t)[i].1 == t.kids[Entries(t)[i].0]
  {
  }

  /** The value reached by following `loc` from `t` (`undefined` once a step leaves the containers). */
  function At(t: Tree, loc: seq<Key>): Tree
    decreases |loc|
  {
    if loc == [] then t else At(Lookup(t, loc[0]), loc[1..])
  }

  /** `t` with the value at location `loc` replaced by `x`, writing one slot per level. */
  function Graft(t: Tree, loc: seq<Key>, x: Tree): Tree
    decreases |loc|
  {
    if loc == [] then x else WriteSlot(t, loc[0], Graft(Lookup(t, loc[0]), loc[1..], x))
  }

  predicate DistinctKeys(keys: seq<Key>) {
    forall i, j :: 0 <= i < j < |keys| ==> keys[i] != keys[j]
  }

  /** A prefix one longer is the prefix followed by the next element. */
  lemma TakeSnoc<T>(s: seq<T>, i: nat)
    requires i < |s|
    ensures s[..i + 1] == s[..i] + [s[i]]
  {
  }

  /** The keys of a dense array of length `n`, in index order. */
  function IndexKeys(n: nat): (r: seq<Key>)
    ensures |r| == n && forall i :: 0 <= i < n ==> r[i] == Idx(i)
  {
    seq(n, i requires 0 <= i < n => Idx(i))
  }

  /**
    A JSON-like value: objects with distinct string keys listed exactly
    once, dense arrays whose keys are their indices in order.
   */
  predicate Plain(t: Tree) {
    match t
    case Leaf(_) => true
    case Node(Object, keys, kids) =>
      && DistinctKeys(keys)
      && (forall k | k in keys :: k in kids) && (forall k | k in kids :: k in keys)
      && (forall k :: k in keys ==> k.Str?)
      && forall k | k in kids :: Plain(kids[k])
    case Node(Array(n), keys, kids) =>
      && keys == IndexKeys(n)
      && (forall k | k in keys :: k in kids) && (forall k | k in kids :: k in keys)
      && forall k | k in kids :: Plain(kids[k])
  }
}
