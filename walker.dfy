/**
  Tree-Walker (src/lib.js `walkCollection`, index.js `walkCollectionTree`).

  The walk visits every own key of every container depth first, asks the
  customizer for a directive, and either descends into a container or
  commits a value into a fresh output root through `set`.

  Specification: `VisitsFrom` lists the customizer calls in walk order,
  each with the directive it returned; `CommitOf` says which of them write
  to the output and what; `Walk` folds those writes over the new root.
  `Traverse` and `WalkCollection` are the source's loop and entry point,
  proved against it.
 */
module Walker {
  import opened Wrappers
  import opened JsValue
  import opened PathSet

  /** `{ value, path, key, skip, remove }`; `value` and `path` carry presence, not truthiness. */
  datatype Directive = Directive(value: Option<Tree>, path: Option<seq<Key>>, key: Option<Key>, skip: bool, remove: bool)

  /** The empty directive `{}`. */
  const NoDirective: Directive := Directive(None, None, None, false, false)

  /** The customizer, called with (value, key, path); `None` stands for a falsy return. */
  type Visitor = (Tree, Key, seq<Key>) -> Option<Directive>

  /** The second argument of the walker: a function, or some other JavaScript value. */
  datatype Customizer = Function(visit: Visitor) | NotAFunction

  /** `new Error('Customizer must be a function!')` */
  datatype WalkError = CustomizerNotAFunction

  /** JavaScript truthiness of a key: `''` and `0` are falsy. */
  predicate Truthy(k: Key) {
    match k
    case Str(s) => s != ""
    case Idx(i) => i != 0
  }

  /** `customizerCallback(value, key, [...path]) || {}` */
  function Resolve(visit: Visitor, value: Tree, key: Key, path: seq<Key>): Directive {
    visit(value, key, path).GetOr(NoDirective)
  }

  /** `hasOwnProperty('value') ? customizerData.value : value` */
  function FinalValue(d: Directive, value: Tree): Tree {
    if d.value.Some? then d.value.value else value
  }

  /**
    The destination of a commit: the directive's `path` if present, else the
    natural path; then a truthy `key` replaces its last segment.  On an
    empty array the write lands at index -1, which `set` never reads.
   */
  function FinalPath(d: Directive, path: seq<Key>): (r: seq<Key>)
    ensures var base := if d.path.Some? then d.path.value else path;
      && |r| == |base|
      && (forall i :: 0 <= i < |r| - 1 ==> r[i] == base[i])
      && (|r| > 0 ==> r[|r| - 1] == if d.key.Some? && Truthy(d.key.value) then d.key.value else base[|base| - 1])
  {
    var base := if d.path.Some? then d.path.value else path;
    if d.key.Some? && Truthy(d.key.value) && |base| > 0 then base[..|base| - 1] + [d.key.value] else base
  }

  /**
    The stack handed to the recursive call: the `path` array itself, which
    is also `finalPath` (and so carries the renamed last segment) exactly
    when the directive has no `path` of its own.
   */
  function ChildStack(d: Directive, path: seq<Key>): seq<Key> {
    if d.path.Some? then path else FinalPath(d, path)
  }

  /** One customizer call: its arguments, the natural position in the input, and the directive. */
  datatype Visit = Visit(value: Tree, key: Key, path: seq<Key>, pos: seq<Key>, directive: Directive)

  /** The call for entry `i` of `t`, followed by the calls inside it when the walk descends. */
  function EntryVisits(visit: Visitor, t: Tree, i: nat, stack: seq<Key>, pos: seq<Key>): (vs: seq<Visit>)
    requires i < |Entries(t)|
    ensures vs != [] && vs[0].key == Entries(t)[i].0 && vs[0].value == Entries(t)[i].1
    decreases t, |Entries(t)| - i, 0
  {
    var (key, value) := Entries(t)[i];
    var path := stack + [key];
    var d := Resolve(visit, value, key, path);
    var here := Visit(value, key, path, pos + [key], d);
    if IsObject(value) && !d.skip then
      EntryIsChild(t, i);
      [here] + VisitsFrom(visit, value, 0, ChildStack(d, path), pos + [key])
    else
      [here]
  }

  /** The calls made for entries `i ..` of `t`, in walk order. */
  function VisitsFrom(visit: Visitor, t: Tree, i: nat, stack: seq<Key>, pos: seq<Key>): seq<Visit>
    decreases t, |Entries(t)| - i, 1
  {
    if i >= |Entries(t)| then []
    else EntryVisits(visit, t, i, stack, pos) + VisitsFrom(visit, t, i + 1, stack, pos)
  }

  /** A write into the output tree: `set(newCollection, path, value)`. */
  datatype Commit = Commit(path: seq<Key>, value: Tree)

  /**
    Which calls write: only a leaf, a skipped container or an empty
    container, and only without `remove`.  An empty container that is not
    skipped is written as a new empty container of its own kind.
   */
  function CommitOf(v: Visit): (c: Option<Commit>)
    ensures c.Some? <==> !v.directive.remove && (!IsObject(v.value) || v.directive.skip || IsEmpty(v.value))
    ensures c.Some? ==> c.value.path == FinalPath(v.directive, v.path)
  {
    var d := v.directive;
    if IsObject(v.value) && !d.skip then
      if IsEmpty(v.value) && !d.remove then Some(Commit(FinalPath(d, v.path), EmptyLike(v.value))) else None
    else if !d.remove then Some(Commit(FinalPath(d, v.path), FinalValue(d, v.value)))
    else None
  }

  function CommitsOf(vs: seq<Visit>): seq<Commit> {
    if vs == [] then []
    else (match CommitOf(vs[0]) case Some(c) => [c] case None => []) + CommitsOf(vs[1..])
  }

  /** The output after the writes `cs`, in order. */
  function Apply(o: Tree, cs: seq<Commit>): Tree
    decreases |cs|
  {
    if cs == [] then o else Apply(SetPath(o, cs[0].path, cs[0].value), cs[1..])
  }

  /** The result of walking container `t`: every write, in walk order, into a new root of `t`'s kind. */
  function Walk(visit: Visitor, t: Tree): Tree {
    Apply(EmptyLike(t), CommitsOf(VisitsFrom(visit, t, 0, [], [])))
  }

  lemma {:induction false} CommitsOfConcat(a: seq<Visit>, b: seq<Visit>)
    ensures CommitsOf(a + b) == CommitsOf(a) + CommitsOf(b)
    decreases |a|
  {
    if a != [] {
      assert (a + b)[0] == a[0];
      assert (a + b)[1..] == a[1..] + b;
      CommitsOfConcat(a[1..], b);
    } else {
      assert a + b == b;
    }
  }

  lemma {:induction false} ApplyConcat(o: Tree, a: seq<Commit>, b: seq<Commit>)
    ensures Apply(o, a + b) == Apply(Apply(o, a), b)
    decreases |a|
  {
    if a != [] {
      assert (a + b)[0] == a[0];
      assert (a + b)[1..] == a[1..] + b;
      ApplyConcat(SetPath(o, a[0].path, a[0].value), a[1..], b);
    } else {
      assert a + b == b;
    }
  }

  /**
    The writes of entry `i`: a leaf or skipped container is written (final
    value at the final path) unless removed; an empty container is written
    as a new empty one unless removed; any other container contributes the
    writes of the walk below it, whatever `remove` says.
   */
  lemma EntryWrites(visit: Visitor, t: Tree, i: nat, stack: seq<Key>, pos: seq<Key>, key: Key, value: Tree, d: Directive)
    requires i < |Entries(t)| && Entries(t)[i] == (key, value)
    requires d == Resolve(visit, value, key, stack + [key])
    ensures CommitsOf(EntryVisits(visit, t, i, stack, pos)) ==
      if IsObject(value) && !d.skip then
        if IsEmpty(value) && !d.remove then [Commit(FinalPath(d, stack + [key]), EmptyLike(value))]
        else CommitsOf(VisitsFrom(visit, value, 0, ChildStack(d, stack + [key]), pos + [key]))
      else if d.remove then []
      else [Commit(FinalPath(d, stack + [key]), FinalValue(d, value))]
  {
    var vs := EntryVisits(visit, t, i, stack, pos);
    CommitsOfConcat([vs[0]], vs[1..]);
    assert [vs[0]] + vs[1..] == vs;
    assert CommitsOf([vs[0]]) == (match CommitOf(vs[0]) case Some(c) => [c] case None => []);
  }

  /** Walking entries `i ..` is entry `i`'s writes followed by the rest. */
  lemma EntryThenRest(visit: Visitor, t: Tree, i: nat, stack: seq<Key>, pos: seq<Key>, o: Tree)
    requires i < |Entries(t)|
    ensures Apply(o, CommitsOf(VisitsFrom(visit, t, i, stack, pos)))
         == Apply(Apply(o, CommitsOf(EntryVisits(visit, t, i, stack, pos))), CommitsOf(VisitsFrom(visit, t, i + 1, stack, pos)))
  {
    var done := EntryVisits(visit, t, i, stack, pos);
    var rest := VisitsFrom(visit, t, i + 1, stack, pos);
    CommitsOfConcat(done, rest);
    ApplyConcat(o, CommitsOf(done), CommitsOf(rest));
  }

  /** Writes never change the kind of the root: the output stays an object, or an array. */
  lemma {:induction false} ApplyKeepsKind(o: Tree, cs: seq<Commit>)
    requires IsObject(o)
    ensures IsObject(Apply(o, cs)) && IsArray(Apply(o, cs)) == IsArray(o)
    decreases |cs|
  {
    if cs != [] {
      ApplyKeepsKind(SetPath(o, cs[0].path, cs[0].value), cs[1..]);
    }
  }

  /** The output root is `[]` when the input is an array and `{}` otherwise, whatever the customizer does. */
  lemma WalkRootKind(visit: Visitor, t: Tree)
    ensures IsObject(Walk(visit, t)) && IsArray(Walk(visit, t)) == IsArray(t)
  {
    ApplyKeepsKind(EmptyLike(t), CommitsOf(VisitsFrom(visit, t, 0, [], [])));
  }

  /** `[...stack, key]`, a new array. */
  method NewPath(stack: seq<Key>, key: Key) returns (path: array<Key>)
    ensures fresh(path) && path[..] == stack + [key]
  {
    path := new Key[|stack| + 1](j requires 0 <= j <= |stack| => if j < |stack| then stack[j] else key);
  }

  /**
    `finalPath`: the directive's own `path` if it has one, else `path`
    itself; a truthy `key` is then written over the last element.  Without a
    `path` override the two arrays are one, so `path` is renamed too.
   */
  method Redirect(path: array<Key>, d: Directive) returns (finalPath: array<Key>)
    modifies path
    ensures finalPath[..] == FinalPath(d, old(path[..]))
    ensures path[..] == ChildStack(d, old(path[..]))
  {
    finalPath := path;
    if d.path.Some? {
      // a copy of the directive's own array: the rename is not written back into the customizer's array
      var p := d.path.value;
      finalPath := new Key[|p|](j requires 0 <= j < |p| => p[j]);
    }
    if d.key.Some? && Truthy(d.key.value) && finalPath.Length > 0 {
      finalPath[finalPath.Length - 1] := d.key.value;
    }
  }

  /**
    `traverseRecursive(collection, newCollection, stack)`: the `forEach`
    loop over the entries, each handled by `VisitEntry`; every write goes
    to the one shared output root.
   */
  method Traverse(visit: Visitor, collection: Tree, newCollection: Collection, stack: seq<Key>, ghost pos: seq<Key>)
    modifies newCollection
    ensures newCollection.value == Apply(old(newCollection.value), CommitsOf(VisitsFrom(visit, collection, 0, stack, pos)))
    decreases collection, 1
  {
    var i := 0;
    while i < |Entries(collection)|
      invariant 0 <= i <= |Entries(collection)|
      invariant Apply(newCollection.value, CommitsOf(VisitsFrom(visit, collection, i, stack, pos)))
             == Apply(old(newCollection.value), CommitsOf(VisitsFrom(visit, collection, 0, stack, pos)))
    {
      ghost var before := newCollection.value;
      VisitEntry(visit, collection, i, newCollection, stack, pos);
      EntryThenRest(visit, collection, i, stack, pos, before);
      i := i + 1;
    }
  }

  /**
    The `forEach` callback for entry `i`: `path` is a new array;
    `finalPath` is that same array unless the directive brings its own
    `path`, so a `key` rename written into `finalPath` also renames the
    stack of the recursive call.
   */
  method VisitEntry(visit: Visitor, collection: Tree, i: nat, newCollection: Collection, stack: seq<Key>, ghost pos: seq<Key>)
    requires i < |Entries(collection)|
    modifies newCollection
    ensures newCollection.value == Apply(old(newCollection.value), CommitsOf(EntryVisits(visit, collection, i, stack, pos)))
    decreases collection, 0
  {
    var (key, value) := Entries(collection)[i];
    var path := NewPath(stack, key);
    var customizerData := Resolve(visit, value, key, path[..]);
    var finalValue := if customizerData.value.Some? then customizerData.value.value else value;
    var finalPath := Redirect(path, customizerData);
    EntryWrites(visit, collection, i, stack, pos, key, value, customizerData);
    if IsObject(value) && !customizerData.skip {
      if IsEmpty(value) && !customizerData.remove {
        var _ := Set(newCollection, finalPath[..], EmptyLike(value));
      } else {
        EntryIsChild(collection, i);
        Traverse(visit, value, newCollection, path[..], pos + [key]);
      }
    } else if !customizerData.remove {
      var _ := Set(newCollection, finalPath[..], finalValue);
    }
  }

  /**
    `walkCollection(collection, customizerCallback)` (src/lib.js): a
    customizer that is not a function is an error, raised before anything
    else; a primitive is returned as it is; a container is walked into a
    new root of its own kind.
   */
  method WalkCollection(collection: Tree, customizer: Customizer) returns (r: Result<Tree, WalkError>)
    ensures customizer.NotAFunction? ==> r == Failure(CustomizerNotAFunction)
    ensures customizer.Function? && !IsObject(collection) ==> r == Success(collection)
    ensures customizer.Function? && IsObject(collection) ==>
      r.Success? && r.value == Walk(customizer.visit, collection) && IsArray(r.value) == IsArray(collection)
  {
    if customizer.NotAFunction? {
      return Failure(CustomizerNotAFunction);
    }
    if !IsObject(collection) {
      return Success(collection);
    }
    var newCollection := new Collection(EmptyLike(collection));
    Traverse(customizer.visit, collection, newCollection, [], []);
    WalkRootKind(customizer.visit, collection);
    return Success(newCollection.value);
  }

  /**
    `walkCollectionTree` (index.js), the entry point the tests use: the same
    algorithm, committing through lodash `_.set`, which is taken to follow
    the contract of src/set.js.
   */
  method WalkCollectionTree(collection: Tree, customizer: Customizer) returns (r: Result<Tree, WalkError>)
    ensures customizer.NotAFunction? ==> r == Failure(CustomizerNotAFunction)
    ensures customizer.Function? && !IsObject(collection) ==> r == Success(collection)
    ensures customizer.Function? && IsObject(collection) ==>
      r.Success? && r.value == Walk(customizer.visit, collection) && IsArray(r.value) == IsArray(collection)
  {
    r := WalkCollection(collection, customizer);
  }
}
