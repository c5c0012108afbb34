/**
  Walks that keep every entry: the customizer may replace leaf values and
  rename object keys, but never skips, removes or redirects.  Such a walk
  returns the input with its leaves mapped and its keys renamed, shape and
  order kept; with a customizer that returns nothing it is a deep copy.
 */
module Relabeling {
  import opened Wrappers
  import opened JsValue
  import opened Walker
  import opened LocalRewrite

  /** Object keys renamed by `g`; array indices are kept. */
  function Rename(g: string -> string, k: Key): (r: Key)
    ensures r.Idx? == k.Idx?
  {
    match k
    case Str(s) => Str(g(s))
    case Idx(_) => k
  }

  /** `g` keeps every two names apart. */
  ghost predicate Injective(g: string -> string) {
    forall a, b :: g(a) == g(b) ==> a == b
  }

  /**
    Inside every container of `t`, `g` keeps the container's own keys apart:
    all that a rename needs, so that `toUpperCase` qualifies on a tree none
    of whose containers holds two keys differing only in case.
   */
  ghost predicate InjectiveOn(g: string -> string, t: Tree)
    decreases t
  {
    match t
    case Leaf(_) => true
    case Node(_, keys, kids) =>
      && (forall a, b | a in keys && b in keys && Rename(g, a) == Rename(g, b) :: a == b)
      && forall k | k in kids :: InjectiveOn(g, kids[k])
  }

  /** A rename injective on all names is injective on every tree. */
  lemma {:induction false} InjectiveEverywhere(g: string -> string, t: Tree)
    requires Injective(g)
    ensures InjectiveOn(g, t)
    decreases t
  {
    if t.Node? {
      forall a, b | a in t.keys && b in t.keys && Rename(g, a) == Rename(g, b)
        ensures a == b
      {
        if a.Str? && b.Str? {
          assert g(a.name) == g(b.name);
        }
      }
      forall k | k in t.kids
        ensures InjectiveOn(g, t.kids[k])
      {
        InjectiveEverywhere(g, t.kids[k]);
      }
    }
  }

  function RenameAll(g: string -> string, keys: seq<Key>): (r: seq<Key>)
    ensures |r| == |keys| && forall i :: 0 <= i < |keys| ==> r[i] == Rename(g, keys[i])
  {
    seq(|keys|, i requires 0 <= i < |keys| => Rename(g, keys[i]))
  }

  /** The input with every leaf mapped by `f` and every object key renamed by `g`, shape and order kept. */
  function Relabel(f: Tree -> Tree, g: string -> string, t: Tree): Tree
    decreases t, 1
  {
    match t
    case Leaf(_) => f(t)
    case Node(sh, keys, _) => Node(sh, RenameAll(g, keys), RelabelKids(f, g, t, |keys|))
  }

  /** The children of the first `i` keys of `t`, relabelled, written one by one under their renamed keys. */
  function RelabelKids(f: Tree -> Tree, g: string -> string, t: Tree, i: nat): map<Key, Tree>
    requires t.Node? && i <= |t.keys|
    decreases t, 0, i
  {
    if i == 0 then map[]
    else
      var k := t.keys[i - 1];
      if k in t.kids then RelabelKids(f, g, t, i - 1)[Rename(g, k) := Relabel(f, g, t.kids[k])]
      else RelabelKids(f, g, t, i - 1)
  }

  /**
    The customizer keeps every entry: it ignores the path, never skips,
    removes or redirects, writes entry (`k`, `v`) under `Rename(g, k)`, and
    gives every leaf the value `f(v)`.
   */
  ghost predicate Relabels(visit: Visitor, f: Tree -> Tree, g: string -> string) {
    && Local(visit)
    && (forall v, k :: !Resolve(visit, v, k, []).skip && !Resolve(visit, v, k, []).remove)
    && (forall v, k :: NewKey(visit, k, v) == Rename(g, k))
    && (forall v, k :: !IsObject(v) ==> FinalValue(Resolve(visit, v, k, []), v) == f(v))
  }

  /** The entries of a plain container are its keys in order, each with its own child. */
  lemma PlainEntries(t: Tree)
    requires Plain(t) && IsObject(t)
    ensures |Entries(t)| == |t.keys|
    ensures forall i :: 0 <= i < |t.keys| ==> t.keys[i] in t.kids && Entries(t)[i] == (t.keys[i], t.kids[t.keys[i]])
  {
  }

  /** A plain container whose keys are renamed injectively stays well formed. */
  lemma {:induction false} PlainRenamable(visit: Visitor, g: string -> string, t: Tree)
    requires (forall v, k :: NewKey(visit, k, v) == Rename(g, k)) && InjectiveOn(g, t) && Plain(t)
    ensures Renamable(visit, t)
    decreases t
  {
    if IsObject(t) {
      PlainEntries(t);
      forall i, j | 0 <= i < j < |Entries(t)|
        ensures NewKey(visit, Entries(t)[i].0, Entries(t)[i].1) != NewKey(visit, Entries(t)[j].0, Entries(t)[j].1)
      {
        assert t.keys[i] != t.keys[j];
      }
      forall k | k in t.kids
        ensures Renamable(visit, t.kids[k])
      {
        PlainRenamable(visit, g, t.kids[k]);
      }
    }
  }

  lemma RenameInjective(g: string -> string, t: Tree, a: Key, b: Key)
    requires InjectiveOn(g, t) && t.Node? && a in t.keys && b in t.keys && Rename(g, a) == Rename(g, b)
    ensures a == b
  {
  }

  /** The relabelled first `i` entries of a plain container. */
  function Partial(f: Tree -> Tree, g: string -> string, t: Tree, i: nat): Tree
    requires IsObject(t) && i <= |t.keys|
  {
    Node(if IsArray(t) then Array(i) else Object, RenameAll(g, t.keys[..i]), RelabelKids(f, g, t, i))
  }

  lemma RenameAllSnoc(g: string -> string, ks: seq<Key>, k: Key)
    ensures RenameAll(g, ks + [k]) == RenameAll(g, ks) + [Rename(g, k)]
  {
  }

  /** The new name of entry `i` is not among the new names of the entries before it. */
  lemma FreshName(g: string -> string, t: Tree, i: nat)
    requires InjectiveOn(g, t) && Plain(t) && IsObject(t) && i < |t.keys|
    ensures Rename(g, t.keys[i]) !in RenameAll(g, t.keys[..i])
  {
    var k := t.keys[i];
    var ks := t.keys[..i];
    forall j | 0 <= j < i
      ensures RenameAll(g, ks)[j] != Rename(g, k)
    {
      assert ks[j] == t.keys[j] != k;
      if RenameAll(g, ks)[j] == Rename(g, k) {
        RenameInjective(g, t, ks[j], k);
      }
    }
  }

  /** Adding entry `i` to the relabelled prefix. */
  lemma PartialStep(f: Tree -> Tree, g: string -> string, t: Tree, i: nat)
    requires InjectiveOn(g, t) && Plain(t) && IsObject(t) && i < |t.keys|
    ensures t.keys[i] in t.kids
    ensures WriteSlot(Partial(f, g, t, i), Rename(g, t.keys[i]), Relabel(f, g, t.kids[t.keys[i]])) == Partial(f, g, t, i + 1)
  {
    var k := t.keys[i];
    var ks := t.keys[..i];
    var nk := Rename(g, k);
    assert k in t.kids;
    TakeSnoc(t.keys, i);
    FreshName(g, t, i);
    RenameAllSnoc(g, ks, k);
    var sh := if IsArray(t) then Array(i) else Object;
    var sh' := if IsArray(t) then Array(i + 1) else Object;
    if IsArray(t) {
      assert k == Idx(i) && nk == Idx(i);
    }
    assert Grow(sh, nk) == sh';
    var r := Relabel(f, g, t.kids[k]);
    assert Partial(f, g, t, i) == Node(sh, RenameAll(g, ks), RelabelKids(f, g, t, i));
    assert WriteSlot(Partial(f, g, t, i), nk, r) == Node(sh', RenameAll(g, ks) + [nk], RelabelKids(f, g, t, i)[nk := r]);
    assert Partial(f, g, t, i + 1) == Node(sh', RenameAll(g, ks + [k]), RelabelKids(f, g, t, i + 1));
  }

  /** The relabelled empty prefix is the new root, and the whole prefix is the relabelled container. */
  lemma PartialEnds(f: Tree -> Tree, g: string -> string, t: Tree)
    requires Plain(t) && IsObject(t)
    ensures Partial(f, g, t, 0) == EmptyLike(t)
    ensures Partial(f, g, t, |t.keys|) == Relabel(f, g, t)
  {
    assert t.keys[..|t.keys|] == t.keys;
    if IsArray(t) {
      assert |t.keys| == t.shape.length;
    }
  }

  /** Rebuilding the remaining entries onto the relabelled prefix gives the relabelled container. */
  lemma {:induction false} RebuildRelabels(visit: Visitor, f: Tree -> Tree, g: string -> string, t: Tree, i: nat)
    requires Relabels(visit, f, g) && InjectiveOn(g, t) && Plain(t) && IsObject(t) && i <= |t.keys|
    ensures RebuildFrom(visit, t, i, Partial(f, g, t, i)) == Relabel(f, g, t)
    decreases t, |t.keys| - i
  {
    PlainEntries(t);
    if i == |t.keys| {
      PartialEnds(f, g, t);
    } else {
      var k := t.keys[i];
      var v := t.kids[k];
      var d := Resolve(visit, v, k, []);
      assert !d.skip && !d.remove && NewKey(visit, k, v) == Rename(g, k);
      if IsObject(v) && !IsEmpty(v) {
        RebuildRelabels(visit, f, g, v, 0);
        PartialEnds(f, g, v);
        assert Relabel(f, g, v).keys == RenameAll(g, v.keys);
        if IsArray(v) {
          assert v.keys == IndexKeys(v.shape.length);
        }
        assert RebuildFrom(visit, v, 0, EmptyLike(v)) != EmptyLike(v);
      } else if IsObject(v) {
        PartialEnds(f, g, v);
        if IsArray(v) {
          assert v.keys == IndexKeys(v.shape.length);
        }
      }
      assert RebuildStep(visit, t, i, Partial(f, g, t, i)) == WriteSlot(Partial(f, g, t, i), Rename(g, k), Relabel(f, g, v));
      PartialStep(f, g, t, i);
      RebuildRelabels(visit, f, g, t, i + 1);
    }
  }

  /** A walk that keeps every entry returns the input relabelled: leaves mapped, object keys renamed. */
  lemma WalkRelabels(visit: Visitor, f: Tree -> Tree, g: string -> string, t: Tree)
    requires Relabels(visit, f, g) && InjectiveOn(g, t) && Plain(t) && IsObject(t)
    ensures Walk(visit, t) == Relabel(f, g, t)
  {
    PlainRenamable(visit, g, t);
    WalkIsRebuild(visit, t);
    PartialEnds(f, g, t);
    RebuildRelabels(visit, f, g, t, 0);
  }

  /** A customizer that returns nothing, as in `(value, key, path) => {}`. */
  function NoOp(): Visitor {
    (v: Tree, k: Key, p: seq<Key>) => None
  }

  function SameLeaf(): Tree -> Tree {
    (t: Tree) => t
  }

  function SameName(): string -> string {
    (s: string) => s
  }

  /** Relabelling with nothing to change gives back the container itself. */
  lemma {:induction false} RelabelNothing(t: Tree)
    requires Plain(t)
    ensures Relabel(SameLeaf(), SameName(), t) == t
    decreases t, 1
  {
    if IsObject(t) {
      assert RenameAll(SameName(), t.keys) == t.keys;
      KidsNothing(t, |t.keys|);
      assert t.keys[..|t.keys|] == t.keys;
    }
  }

  /** Relabelled with nothing to change, the first `i` keys' children are the children themselves. */
  ghost predicate KidsKept(t: Tree, i: nat)
    requires t.Node? && i <= |t.keys|
  {
    var m := RelabelKids(SameLeaf(), SameName(), t, i);
    && (forall k :: k in m <==> k in t.keys[..i])
    && forall k | k in m :: k in t.kids && m[k] == t.kids[k]
  }

  /** `KidsKept` for the first `i` keys, given it for the first `i - 1`. */
  lemma {:induction false} KidsNothingStep(t: Tree, i: nat)
    requires Plain(t) && IsObject(t) && 0 < i <= |t.keys| && KidsKept(t, i - 1)
    requires t.keys[i - 1] in t.kids ==> Relabel(SameLeaf(), SameName(), t.kids[t.keys[i - 1]]) == t.kids[t.keys[i - 1]]
    ensures KidsKept(t, i)
  {
    var k := t.keys[i - 1];
    assert k in t.kids;
    TakeSnoc(t.keys, i - 1);
    var m0 := RelabelKids(SameLeaf(), SameName(), t, i - 1);
    assert RelabelKids(SameLeaf(), SameName(), t, i) == m0[k := t.kids[k]];
    KeptSnoc(m0, t.kids, t.keys[..i - 1], k);
  }

  /** Adding a child under its own key to a map of children keyed by `ks` keys it by `ks + [k]`. */
  lemma KeptSnoc(m0: map<Key, Tree>, kids: map<Key, Tree>, ks: seq<Key>, k: Key)
    requires k in kids && (forall x :: x in m0 <==> x in ks) && forall x | x in m0 :: x in kids && m0[x] == kids[x]
    ensures forall x :: x in m0[k := kids[k]] <==> x in ks + [k]
    ensures forall x | x in m0[k := kids[k]] :: x in kids && m0[k := kids[k]][x] == kids[x]
  {
  }

  lemma {:induction false} KidsNothing(t: Tree, i: nat)
    requires Plain(t) && IsObject(t) && i <= |t.keys|
    ensures KidsKept(t, i)
    decreases t, 0, i
  {
    if i > 0 {
      KidsNothing(t, i - 1);
      var k := t.keys[i - 1];
      if k in t.kids {
        RelabelNothing(t.kids[k]);
      }
      KidsNothingStep(t, i);
    }
  }

  /**
    Deep copy: walking a JSON-like container with a customizer that returns
    nothing gives back an equal container (`[]` and `{}` included).
   */
  lemma DeepCopy(t: Tree)
    requires Plain(t) && IsObject(t)
    ensures Walk(NoOp(), t) == t
  {
    var visit := NoOp();
    forall v, k, p
      ensures visit(v, k, p) == visit(v, k, [])
    {
    }
    assert Relabels(visit, SameLeaf(), SameName());
    assert Injective(SameName());
    InjectiveEverywhere(SameName(), t);
    RelabelNothing(t);
    WalkRelabels(visit, SameLeaf(), SameName(), t);
  }

  /** `n * 2` on number leaves; every other leaf is kept. */
  function Doubled(): Tree -> Tree {
    (t: Tree) => if t.Leaf? && t.prim.Number? then Leaf(Number(2 * t.prim.n)) else t
  }

  /** `if (isNumber(value)) return { value: value * 2 }` */
  function DoubleNumbers(): Visitor {
    (v: Tree, k: Key, p: seq<Key>) =>
      if v.Leaf? && v.prim.Number? then Some(Directive(Some(Leaf(Number(2 * v.prim.n))), None, None, false, false))
      else None
  }

  /**
    A `value` directive on leaves replaces exactly those leaves: numbers are
    doubled in place, and every other leaf (`false`, `null`, `undefined`,
    strings) is copied as it is.
   */
  lemma DoubleNumbersMapsLeaves(t: Tree)
    requires Plain(t) && IsObject(t)
    ensures Walk(DoubleNumbers(), t) == Relabel(Doubled(), SameName(), t)
  {
    var visit := DoubleNumbers();
    forall v, k, p
      ensures visit(v, k, p) == visit(v, k, [])
    {
    }
    assert Injective(SameName());
    InjectiveEverywhere(SameName(), t);
    assert Relabels(visit, Doubled(), SameName());
    WalkRelabels(visit, Doubled(), SameName(), t);
  }

  /** `if (typeof key === 'string') return { key: g(key) }` */
  function RenameNames(g: string -> string): Visitor {
    (v: Tree, k: Key, p: seq<Key>) =>
      if k.Str? then Some(Directive(None, None, Some(Str(g(k.name))), false, false)) else None
  }

  /**
    Renaming every object key with a `g` that keeps the keys of each
    container apart renames keys at every depth and keeps array indices;
    `g` may send only `''` to `''`, because an empty name is falsy and would
    leave the key unchanged.
   */
  lemma RenameNamesEverywhere(g: string -> string, t: Tree)
    requires InjectiveOn(g, t) && (forall s :: g(s) == "" ==> s == "")
    requires Plain(t) && IsObject(t)
    ensures Walk(RenameNames(g), t) == Relabel(SameLeaf(), g, t)
  {
    var visit := RenameNames(g);
    forall v, k, p
      ensures visit(v, k, p) == visit(v, k, [])
    {
    }
    forall v, k
      ensures NewKey(visit, k, v) == Rename(g, k)
    {
      if k.Str? && g(k.name) == "" {
        assert k.name == "";
      }
    }
    assert Relabels(visit, SameLeaf(), g);
    WalkRelabels(visit, SameLeaf(), g, t);
  }

  /** `toUpperCase` on one character, over the ASCII letters. */
  function UpperChar(c: char): (r: char)
    ensures 'a' <= c <= 'z' ==> 'A' <= r <= 'Z'
    ensures !('a' <= c <= 'z') ==> r == c
  {
    if 'a' <= c <= 'z' then (c as int - 32) as char else c
  }

  /** `key.toUpperCase()`, character by character. */
  function Upper(s: string): (r: string)
    ensures |r| == |s| && forall i :: 0 <= i < |s| ==> r[i] == UpperChar(s[i])
  {
    seq(|s|, i requires 0 <= i < |s| => UpperChar(s[i]))
  }

  function UpperName(): string -> string {
    (s: string) => Upper(s)
  }

  /** Upper-casing merges names that differ only in case, so it is not injective on all names. */
  lemma UpperMergesCase()
    ensures !Injective(UpperName())
  {
    assert Upper("a") == "A" == Upper("A");
    assert UpperName()("a") == UpperName()("A") && "a" != "A";
  }

  /**
    The "change key" customizer, `typeof key === 'string' ? { key: key.toUpperCase() } : undefined`,
    upper-cases object keys at every depth and keeps array indices and
    leaves, on every container none of whose containers holds two keys
    that differ only in case.
   */
  lemma UpperCaseEverywhere(t: Tree)
    requires InjectiveOn(UpperName(), t) && Plain(t) && IsObject(t)
    ensures Walk(RenameNames(UpperName()), t) == Relabel(SameLeaf(), UpperName(), t)
  {
    forall s | UpperName()(s) == ""
      ensures s == ""
    {
      assert |Upper(s)| == |s|;
    }
    RenameNamesEverywhere(UpperName(), t);
  }

  /** `if (!_.isObject(value)) return { value: undefined }`: the directive has `value`, set to `undefined`. */
  function UndefineLeaves(): Visitor {
    (v: Tree, k: Key, p: seq<Key>) =>
      if v.Leaf? then Some(Directive(Some(Undef), None, None, false, false)) else None
  }

  function ToUndefined(): Tree -> Tree {
    (t: Tree) => if t.Leaf? then Undef else t
  }

  /**
    `value` counts by presence: a directive whose `value` is `undefined`
    writes `undefined` over every leaf, rather than keeping the leaf as a
    directive without `value` does (`DeepCopy`).
   */
  lemma ExplicitUndefinedWritten(t: Tree)
    requires Plain(t) && IsObject(t)
    ensures Walk(UndefineLeaves(), t) == Relabel(ToUndefined(), SameName(), t)
  {
    var visit := UndefineLeaves();
    forall v, k, p
      ensures visit(v, k, p) == visit(v, k, [])
    {
    }
    assert Injective(SameName());
    InjectiveEverywhere(SameName(), t);
    assert Relabels(visit, ToUndefined(), SameName());
    WalkRelabels(visit, ToUndefined(), SameName(), t);
  }
}
