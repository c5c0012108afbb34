/**
  Walks of small collections, most of them from the repository's own test
  suite (test/main-test.js): with `remove: true`, removed entries disappear,
  kept array entries stay at their own indices (so an array ends at its
  last kept index and a removed middle entry leaves a hole), and a branch
  left with nothing in it is not written at all; a `key` rename is seen in
  the paths reported to the calls below the renamed entry.
 */
module WalkExamples {
  import opened Wrappers
  import opened JsValue
  import opened Walker
  import opened LocalRewrite
  import opened Relabeling

  const Removed: Directive := Directive(None, None, None, false, true)

  /** `!value` on a primitive (`NaN` is not modelled, numbers being integers). */
  predicate Falsy(p: Primitive) {
    p == Undefined || p == Null || p == Bool(false) || p == Number(0) || p == Text("")
  }

  /** `if (!value) return { remove: true }`: objects and arrays are truthy. */
  function RemoveFalsy(): Visitor {
    (v: Tree, k: Key, p: seq<Key>) => if v.Leaf? && Falsy(v.prim) then Some(Removed) else None
  }

  /** `if (_.isObject(value) && _.isEmpty(value)) return { remove: true }` */
  function RemoveEmpty(): Visitor {
    (v: Tree, k: Key, p: seq<Key>) => if IsObject(v) && IsEmpty(v) then Some(Removed) else None
  }

  /** A visitor that only removes is local and keeps every key, so its walk is a rebuild. */
  lemma RemovalIsRebuild(visit: Visitor, t: Tree)
    requires forall v, k, p :: visit(v, k, p) == visit(v, k, []) && (visit(v, k, p) == None || visit(v, k, p) == Some(Removed))
    requires Plain(t)
    ensures Walk(visit, t) == Rebuild(visit, t)
  {
    forall v, k
      ensures NewKey(visit, k, v) == Rename(SameName(), k)
    {
      assert visit(v, k, []) == None || visit(v, k, []) == Some(Removed);
    }
    forall v, k
      ensures Resolve(visit, v, k, []).path.None?
    {
      assert visit(v, k, []) == None || visit(v, k, []) == Some(Removed);
    }
    assert Injective(SameName());
    InjectiveEverywhere(SameName(), t);
    PlainRenamable(visit, SameName(), t);
    WalkIsRebuild(visit, t);
  }

  function Num(n: int): Tree {
    Leaf(Number(n))
  }

  /** `[34, false, null]` */
  function SmallArray(): Tree {
    Node(Array(3), [Idx(0), Idx(1), Idx(2)], map[Idx(0) := Num(34), Idx(1) := Leaf(Bool(false)), Idx(2) := Leaf(Null)])
  }

  /** `{ one: undefined, arr: [34, false, null] }` */
  function FalsyCollection(): Tree {
    Node(Object, [Str("one"), Str("arr")], map[Str("one") := Undef, Str("arr") := SmallArray()])
  }

  /** `{ arr: [34] }` */
  function FalsyRemoved(): Tree {
    Node(Object, [Str("arr")], map[Str("arr") := Node(Array(1), [Idx(0)], map[Idx(0) := Num(34)])])
  }

  /** Rebuilding `[34, false, null]` without its falsy entries gives `[34]`. */
  lemma FalsyArrayRebuilt()
    ensures RebuildFrom(RemoveFalsy(), SmallArray(), 0, EmptyLike(SmallArray())) == Node(Array(1), [Idx(0)], map[Idx(0) := Num(34)])
  {
    var visit := RemoveFalsy();
    var a := SmallArray();
    var a0 := Node(Array(0), [], map[]);
    var a1 := Node(Array(1), [Idx(0)], map[Idx(0) := Num(34)]);
    assert |Entries(a)| == 3;
    assert Entries(a)[0] == (Idx(0), Num(34));
    assert Entries(a)[1] == (Idx(1), Leaf(Bool(false)));
    assert Entries(a)[2] == (Idx(2), Leaf(Null));
    assert Resolve(visit, Num(34), Idx(0), []) == NoDirective;
    assert EmptyLike(a) == a0;
    assert Grow(Array(0), Idx(0)) == Array(1);
    assert [] + [Idx(0)] == [Idx(0)];
    assert WriteSlot(a0, Idx(0), Num(34)) == a1;
    assert RebuildStep(visit, a, 0, a0) == a1;
    assert RebuildStep(visit, a, 1, a1) == a1;
    assert RebuildStep(visit, a, 2, a1) == a1;
  }

  /** Removing the falsy entries of `{ one: undefined, arr: [34, false, null] }` leaves `{ arr: [34] }`. */
  lemma FalsyCollectionRebuilt()
    ensures Rebuild(RemoveFalsy(), FalsyCollection()) == FalsyRemoved()
  {
    var visit := RemoveFalsy();
    var t := FalsyCollection();
    FalsyArrayRebuilt();
    assert |Entries(t)| == 2;
    assert Entries(t)[0] == (Str("one"), Undef);
    assert Entries(t)[1] == (Str("arr"), SmallArray());
    assert RebuildStep(visit, t, 0, EmptyLike(t)) == EmptyLike(t);
    assert RebuildStep(visit, t, 1, EmptyLike(t)) == FalsyRemoved();
  }

  /**
    Removing falsy values drops `one: undefined`, and the array, written
    only at index 0, is rebuilt as `[34]`: nothing extends it to length 3.
   */
  lemma RemoveFalsyExample()
    ensures Walk(RemoveFalsy(), FalsyCollection()) == FalsyRemoved()
  {
    assert Plain(FalsyCollection()) by {
      assert IndexKeys(3) == [Idx(0), Idx(1), Idx(2)];
      assert Plain(SmallArray());
    }
    RemovalIsRebuild(RemoveFalsy(), FalsyCollection());
    FalsyCollectionRebuilt();
  }

  /** `[false, 34]` */
  function HoleArray(): Tree {
    Node(Array(2), [Idx(0), Idx(1)], map[Idx(0) := Leaf(Bool(false)), Idx(1) := Num(34)])
  }

  /** Rebuilding `[false, 34]` without its falsy entry writes only index 1. */
  lemma HoleArrayRebuilt()
    ensures RebuildFrom(RemoveFalsy(), HoleArray(), 0, EmptyLike(HoleArray())) == Node(Array(2), [Idx(1)], map[Idx(1) := Num(34)])
  {
    var visit := RemoveFalsy();
    var a := HoleArray();
    var a0 := Node(Array(0), [], map[]);
    var a2 := Node(Array(2), [Idx(1)], map[Idx(1) := Num(34)]);
    assert |Entries(a)| == 2;
    assert Entries(a)[0] == (Idx(0), Leaf(Bool(false)));
    assert Entries(a)[1] == (Idx(1), Num(34));
    assert Resolve(visit, Num(34), Idx(1), []) == NoDirective;
    assert EmptyLike(a) == a0;
    assert Grow(Array(0), Idx(1)) == Array(2);
    assert [] + [Idx(1)] == [Idx(1)];
    assert WriteSlot(a0, Idx(1), Num(34)) == a2;
    assert RebuildStep(visit, a, 0, a0) == a0;
    assert RebuildStep(visit, a, 1, a0) == a2;
  }

  /**
    Removing a falsy entry in the middle of an array does not shift the
    entries after it: `[false, 34]` becomes `[ , 34]`, an array of length 2
    whose index 0 is a hole.
   */
  lemma RemoveLeavesHole()
    ensures Walk(RemoveFalsy(), HoleArray()) == Node(Array(2), [Idx(1)], map[Idx(1) := Num(34)])
  {
    assert Plain(HoleArray()) by {
      assert IndexKeys(2) == [Idx(0), Idx(1)];
    }
    RemovalIsRebuild(RemoveFalsy(), HoleArray());
    HoleArrayRebuilt();
  }

  /** `{ a: { b: {} }, n: 3 }` */
  function BranchCollection(): Tree {
    var b := Node(Object, [], map[]);
    Node(Object, [Str("a"), Str("n")], map[Str("a") := Node(Object, [Str("b")], map[Str("b") := b]), Str("n") := Num(3)])
  }

  /** Rebuilding the branch without its empty containers leaves `{ n: 3 }`. */
  lemma BranchRebuilt()
    ensures Rebuild(RemoveEmpty(), BranchCollection()) == Node(Object, [Str("n")], map[Str("n") := Num(3)])
  {
    var visit := RemoveEmpty();
    var t := BranchCollection();
    var e := Node(Object, [], map[]);
    var a := Node(Object, [Str("b")], map[Str("b") := e]);
    assert |Entries(a)| == 1 && Entries(a)[0] == (Str("b"), e);
    assert RebuildStep(visit, a, 0, EmptyLike(a)) == EmptyLike(a);
    assert RebuildFrom(visit, a, 0, EmptyLike(a)) == EmptyLike(a);
    assert |Entries(t)| == 2;
    assert Entries(t)[0] == (Str("a"), a);
    assert Entries(t)[1] == (Str("n"), Num(3));
    assert RebuildStep(visit, t, 0, EmptyLike(t)) == EmptyLike(t);
  }

  /**
    Removing empty containers removes the branch `a` whose only leaf-free
    descendant is `{}`: `a` itself was not empty when visited, but nothing
    under it was written, so it is not written either (`{ n: 3 }`).
   */
  lemma RemoveEmptyExample()
    ensures Walk(RemoveEmpty(), BranchCollection()) == Node(Object, [Str("n")], map[Str("n") := Num(3)])
  {
    var e := Node(Object, [], map[]);
    var a := Node(Object, [Str("b")], map[Str("b") := e]);
    assert Plain(BranchCollection()) by {
      assert Plain(e);
      assert Plain(a);
    }
    RemovalIsRebuild(RemoveEmpty(), BranchCollection());
    BranchRebuilt();
  }

  /** With no customizer at all the same branch is copied as it is. */
  lemma KeepEmptyExample()
    ensures Walk(NoOp(), BranchCollection()) == BranchCollection()
  {
    var e := Node(Object, [], map[]);
    var a := Node(Object, [Str("b")], map[Str("b") := e]);
    assert Plain(BranchCollection()) by {
      assert Plain(e);
      assert Plain(a);
    }
    DeepCopy(BranchCollection());
  }

  /** `if (key === 'a') return { key: 'A' }` */
  function RenameA(): Visitor {
    (v: Tree, k: Key, p: seq<Key>) => if k == Str("a") then Some(Directive(None, None, Some(Str("A")), false, false)) else None
  }

  /** `{ a: { b: 1 } }` */
  function Nested(): Tree {
    Node(Object, [Str("a")], map[Str("a") := Node(Object, [Str("b")], map[Str("b") := Num(1)])])
  }

  /**
    A renamed key carries over to the calls below it: after `a` is renamed
    to `A`, the call for `b` is given the path `['A', 'b']`, not
    `['a', 'b']`.
   */
  lemma RenameSeenBelow()
    ensures |VisitsFrom(RenameA(), Nested(), 0, [], [])| == 2
    ensures VisitsFrom(RenameA(), Nested(), 0, [], [])[1].key == Str("b")
    ensures VisitsFrom(RenameA(), Nested(), 0, [], [])[1].path == [Str("A"), Str("b")]
  {
    var visit := RenameA();
    var t := Nested();
    var inner := Node(Object, [Str("b")], map[Str("b") := Num(1)]);
    var d := Directive(None, None, Some(Str("A")), false, false);
    assert |Entries(t)| == 1 && Entries(t)[0] == (Str("a"), inner);
    assert |Entries(inner)| == 1 && Entries(inner)[0] == (Str("b"), Num(1));
    assert Resolve(visit, inner, Str("a"), [Str("a")]) == d;
    assert ChildStack(d, [Str("a")]) == [Str("A")];
    assert [Str("A")] + [Str("b")] == [Str("A"), Str("b")];
    assert [Str("a")] + [Str("b")] == [Str("a"), Str("b")];
    assert Resolve(visit, Num(1), Str("b"), [Str("A"), Str("b")]) == NoDirective;
    assert VisitsFrom(visit, inner, 1, [Str("A")], [Str("a")]) == [];
    assert EntryVisits(visit, inner, 0, [Str("A")], [Str("a")])
        == [Visit(Num(1), Str("b"), [Str("A"), Str("b")], [Str("a"), Str("b")], NoDirective)];
    assert VisitsFrom(visit, inner, 0, [Str("A")], [Str("a")])
        == [Visit(Num(1), Str("b"), [Str("A"), Str("b")], [Str("a"), Str("b")], NoDirective)];
    assert EntryVisits(visit, t, 0, [], []) == [Visit(inner, Str("a"), [Str("a")], [Str("a")], d)]
        + VisitsFrom(visit, inner, 0, [Str("A")], [Str("a")]);
  }

  /** `{ a: 1 }` */
  function OneA(): Tree {
    Node(Object, [Str("a")], map[Str("a") := Num(1)])
  }

  /**
    Walking `{ a: 1 }` with `{ value: undefined }` on leaves gives
    `{ a: undefined }`: the present `value` is written although it is
    `undefined`.
   */
  lemma ExplicitUndefinedExample()
    ensures Walk(UndefineLeaves(), OneA()) == Node(Object, [Str("a")], map[Str("a") := Undef])
  {
    var visit, t := UndefineLeaves(), OneA();
    var d := Directive(Some(Undef), None, None, false, false);
    assert |Entries(t)| == 1 && Entries(t)[0] == (Str("a"), Num(1));
    assert [] + [Str("a")] == [Str("a")];
    assert Resolve(visit, Num(1), Str("a"), [Str("a")]) == d;
    assert VisitsFrom(visit, t, 1, [], []) == [];
    assert EntryVisits(visit, t, 0, [], []) == [Visit(Num(1), Str("a"), [Str("a")], [Str("a")], d)];
    assert VisitsFrom(visit, t, 0, [], []) == [Visit(Num(1), Str("a"), [Str("a")], [Str("a")], d)];
  }

  /** A directive without `value` keeps the leaf: `{ a: 1 }` is copied. */
  lemma AbsentValueExample()
    ensures Walk((v: Tree, k: Key, p: seq<Key>) => Some(NoDirective), OneA()) == OneA()
  {
    var visit: Visitor := (v: Tree, k: Key, p: seq<Key>) => Some(NoDirective);
    var t := OneA();
    assert |Entries(t)| == 1 && Entries(t)[0] == (Str("a"), Num(1));
    assert [] + [Str("a")] == [Str("a")];
    assert Resolve(visit, Num(1), Str("a"), [Str("a")]) == NoDirective;
    assert VisitsFrom(visit, t, 1, [], []) == [];
    assert EntryVisits(visit, t, 0, [], []) == [Visit(Num(1), Str("a"), [Str("a")], [Str("a")], NoDirective)];
    assert VisitsFrom(visit, t, 0, [], []) == [Visit(Num(1), Str("a"), [Str("a")], [Str("a")], NoDirective)];
  }
}
