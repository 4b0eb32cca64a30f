/** Moving (possibly nested) tuples to and from a storage one scalar at a
    time through a user-supplied accessor: `get_similar` / `OutOp` build a
    tuple of a given shape by reading leaves, `set` / `InOp` write every leaf
    of a tuple. Both visit the leaves left to right, depth first. */
module TupleTransfer {
  import opened NamedRecord

  /** The type of a tuple: a scalar element type, or a nested tuple type. */
  datatype Shape = Leaf(kind: Kind) | Nested(elems: seq<Shape>)

  /** A tuple value: a scalar element, or a nested tuple. */
  datatype Tree = Scalar(value: Value) | Tuple(elems: seq<Tree>)

  // ---------------------------------------------------------------------------
  // Shapes and trees

  /** Every tuple type is non-empty: `OutOp` has no case for an empty
      argument list and `InOp` selects at least one element. */
  predicate WellFormed(sh: Shape)
    decreases sh
  {
    match sh
    case Leaf(_) => true
    case Nested(es) => |es| >= 1 && AllWellFormed(es)
  }

  predicate AllWellFormed(ss: seq<Shape>)
    decreases ss
  {
    ss == [] || (WellFormed(ss[0]) && AllWellFormed(ss[1..]))
  }

  function NodeCount(sh: Shape): (n: nat)
    ensures n >= 1
    decreases sh
  {
    match sh
    case Leaf(_) => 1
    case Nested(es) => 1 + NodeCountAll(es)
  }

  function NodeCountAll(ss: seq<Shape>): nat
    decreases ss
  {
    if ss == [] then 0 else NodeCount(ss[0]) + NodeCountAll(ss[1..])
  }

  /** The scalar element types of a shape, left to right, depth first. */
  function Leaves(sh: Shape): seq<Kind>
    decreases sh
  {
    match sh
    case Leaf(k) => [k]
    case Nested(es) => LeavesAll(es)
  }

  function LeavesAll(ss: seq<Shape>): seq<Kind>
    decreases ss
  {
    if ss == [] then [] else Leaves(ss[0]) + LeavesAll(ss[1..])
  }

  /** The scalar values of a tree, left to right, depth first. */
  function Flatten(t: Tree): seq<Value>
    decreases t
  {
    match t
    case Scalar(v) => [v]
    case Tuple(ts) => FlattenAll(ts)
  }

  function FlattenAll(ts: seq<Tree>): seq<Value>
    decreases ts
  {
    if ts == [] then [] else Flatten(ts[0]) + FlattenAll(ts[1..])
  }

  /** The type of a tuple value. */
  function ShapeOf(t: Tree): Shape
    decreases t
  {
    match t
    case Scalar(v) => Leaf(KindOf(v))
    case Tuple(ts) => Nested(ShapesOf(ts))
  }

  function ShapesOf(ts: seq<Tree>): (ss: seq<Shape>)
    ensures |ss| == |ts|
    decreases ts
  {
    if ts == [] then [] else [ShapeOf(ts[0])] + ShapesOf(ts[1..])
  }

  /** A tree has the given shape: nested where the shape is nested, with
      the right element type at every leaf. */
  predicate Matches(t: Tree, sh: Shape)
    decreases t
  {
    match t
    case Scalar(v) => sh.Leaf? && KindOf(v) == sh.kind
    case Tuple(ts) => sh.Nested? && MatchesAll(ts, sh.elems)
  }

  predicate MatchesAll(ts: seq<Tree>, ss: seq<Shape>)
    decreases ts
  {
    |ts| == |ss| && (ts == [] || (Matches(ts[0], ss[0]) && MatchesAll(ts[1..], ss[1..])))
  }

  lemma {:induction false} FlattenAllAppend(a: seq<Tree>, b: seq<Tree>)
    ensures FlattenAll(a + b) == FlattenAll(a) + FlattenAll(b)
    decreases a
  {
    if a == [] {
      assert a + b == b;
    } else {
      calc {
        FlattenAll(a + b);
      == { assert (a + b)[0] == a[0] && (a + b)[1..] == a[1..] + b; }
        Flatten(a[0]) + FlattenAll(a[1..] + b);
      == { FlattenAllAppend(a[1..], b); }
        Flatten(a[0]) + (FlattenAll(a[1..]) + FlattenAll(b));
      }
    }
  }

  lemma {:induction false} MatchesAllAppend(a: seq<Tree>, b: seq<Tree>, sa: seq<Shape>, sb: seq<Shape>)
    requires MatchesAll(a, sa) && MatchesAll(b, sb)
    ensures MatchesAll(a + b, sa + sb)
    decreases a
  {
    if a == [] {
      assert a + b == b && sa + sb == sb;
    } else {
      MatchesAllAppend(a[1..], b, sa[1..], sb);
      assert (a + b)[0] == a[0] && (sa + sb)[0] == sa[0];
      assert (a + b)[1..] == a[1..] + b;
      assert (sa + sb)[1..] == sa[1..] + sb;
    }
  }

  // ---------------------------------------------------------------------------
  // Reading: OutOp and get_similar

  /** An accessor's `get`: given the storage state and the element type
      asked for, the value read and the storage state after the read. */
  type Reader<!S> = (S, Kind) -> (Value, S)

  /** The accessor returns a value of the element type it is asked for (in
      the C++ source its return type is that element type). */
  ghost predicate WellTyped<S(!new)>(read: Reader<S>) {
    forall s: S, k: Kind :: KindOf(read(s, k).0) == k
  }

  /** Reference definition: read one value for each element type in
      `kinds`, in order, threading the storage state. */
  function ReadAll<S>(read: Reader<S>, s: S, kinds: seq<Kind>): (seq<Value>, S)
    decreases kinds
  {
    if kinds == [] then ([], s)
    else
      var first := read(s, kinds[0]);
      var others := ReadAll(read, first.1, kinds[1..]);
      ([first.0] + others.0, others.1)
  }

  lemma {:induction false} ReadAllAppend<S>(read: Reader<S>, s: S, a: seq<Kind>, b: seq<Kind>)
    ensures ReadAll(read, s, a + b).0
         == ReadAll(read, s, a).0 + ReadAll(read, ReadAll(read, s, a).1, b).0
    ensures ReadAll(read, s, a + b).1 == ReadAll(read, ReadAll(read, s, a).1, b).1
    decreases a
  {
    if a == [] {
      assert a + b == b;
      assert ReadAll(read, s, a) == ([], s);
    } else {
      var p := read(s, a[0]);
      var ra := ReadAll(read, p.1, a[1..]);
      var rb := ReadAll(read, ra.1, b);
      ReadAllAppend(read, p.1, a[1..], b);
      assert ReadAll(read, s, a + b).0 == [p.0] + ReadAll(read, p.1, a[1..] + b).0
          && ReadAll(read, s, a + b).1 == ReadAll(read, p.1, a[1..] + b).1 by {
        assert (a + b)[0] == a[0] && (a + b)[1..] == a[1..] + b;
      }
      assert ReadAll(read, s, a).0 == [p.0] + ra.0 && ReadAll(read, s, a).1 == ra.1;
      assert [p.0] + (ra.0 + rb.0) == ([p.0] + ra.0) + rb.0;
    }
  }

  /** What `OutOp` promises of the elements `ts` it reads for `args`
      from state `s`, ending in state `s'`. */
  ghost predicate ReadsAs<S>(read: Reader<S>, s: S, args: seq<Shape>, ts: seq<Tree>, s': S) {
    && MatchesAll(ts, args)
    && FlattenAll(ts) == ReadAll(read, s, LeavesAll(args)).0
    && s' == ReadAll(read, s, LeavesAll(args)).1
  }

  /** Reading the head element, then the rest, reads the whole list. */
  lemma HeadThenTail<S>(read: Reader<S>, s: S, args: seq<Shape>,
                        head: seq<Tree>, mid: S, tail: seq<Tree>, s': S)
    requires |args| >= 2
    requires ReadsAs(read, s, [args[0]], head, mid)
    requires ReadsAs(read, mid, args[1..], tail, s')
    ensures ReadsAs(read, s, args, head + tail, s')
  {
    assert args == [args[0]] + args[1..];
    assert LeavesAll([args[0]]) == Leaves(args[0]);
    assert LeavesAll(args) == LeavesAll([args[0]]) + LeavesAll(args[1..]);
    ReadAllAppend(read, s, LeavesAll([args[0]]), LeavesAll(args[1..]));
    FlattenAllAppend(head, tail);
    MatchesAllAppend(head, tail, [args[0]], args[1..]);
  }

  /** `OutOp<Args...>::get`: one tuple element per argument type; a
      scalar type is read through the accessor, a tuple type is read with
      `get_similar`, and several types are read head first, then the tail,
      and concatenated (`tuple_cat`). */
  function OutOp<S(!new)>(read: Reader<S>, s: S, args: seq<Shape>): (r: (seq<Tree>, S))
    requires |args| >= 1 && AllWellFormed(args) && WellTyped(read)
    ensures ReadsAs(read, s, args, r.0, r.1)
    decreases NodeCountAll(args), 0
  {
    if |args| >= 2 then
      assert NodeCountAll([args[0]]) == NodeCount(args[0]) && NodeCountAll(args[1..]) >= 1;
      var head := OutOp(read, s, [args[0]]);
      var tail := OutOp(read, head.1, args[1..]);
      HeadThenTail(read, s, args, head.0, head.1, tail.0, tail.1);
      (head.0 + tail.0, tail.1)
    else
      assert args == [args[0]];
      match args[0]
      case Leaf(k) =>
        var p := read(s, k);
        LeafReads(read, s, k);
        ([Scalar(p.0)], p.1)
      case Nested(inner) =>
        assert NodeCountAll(args) == NodeCount(args[0]) && WellFormed(args[0]);
        var t := GetSimilar(read, s, inner);
        NestedReads(read, s, inner, t.0, t.1);
        ([t.0], t.1)
  }

  /** A scalar element type is one read through the accessor. */
  lemma LeafReads<S>(read: Reader<S>, s: S, k: Kind)
    requires KindOf(read(s, k).0) == k
    ensures ReadsAs(read, s, [Leaf(k)], [Scalar(read(s, k).0)], read(s, k).1)
  {
    var p := read(s, k);
    assert LeavesAll([Leaf(k)]) == [k] by {
      assert [Leaf(k)][1..] == [];
    }
    assert ReadAll(read, s, [k]).0 == [p.0] && ReadAll(read, s, [k]).1 == p.1 by {
      assert [k][1..] == [] && ReadAll(read, p.1, []) == ([], p.1);
    }
    assert MatchesAll([Scalar(p.0)], [Leaf(k)]) && FlattenAll([Scalar(p.0)]) == [p.0] by {
      assert [Scalar(p.0)][1..] == [] && [Leaf(k)][1..] == [];
      assert FlattenAll([Scalar(p.0)]) == Flatten(Scalar(p.0)) + FlattenAll([]);
    }
  }

  /** A nested tuple type is read as one element holding the nested tuple. */
  lemma NestedReads<S>(read: Reader<S>, s: S, inner: seq<Shape>, t: Tree, s': S)
    requires Matches(t, Nested(inner))
    requires Flatten(t) == ReadAll(read, s, LeavesAll(inner)).0
    requires s' == ReadAll(read, s, LeavesAll(inner)).1
    ensures ReadsAs(read, s, [Nested(inner)], [t], s')
  {
    assert [Nested(inner)][1..] == [] && [t][1..] == [];
    assert LeavesAll([Nested(inner)]) == LeavesAll(inner);
    assert FlattenAll([t]) == Flatten(t);
  }

  /** `get_similar(tgt, tuple<Args...>)`, and `get<AccessorT, TupleT>(tgt)`
      which calls it with a default tuple: a tuple with the shape of the
      template whose leaves are read from the storage one at a time, left
      to right, depth first. */
  function GetSimilar<S(!new)>(read: Reader<S>, s: S, args: seq<Shape>): (r: (Tree, S))
    requires |args| >= 1 && AllWellFormed(args) && WellTyped(read)
    ensures Matches(r.0, Nested(args))
    ensures Flatten(r.0) == ReadAll(read, s, LeavesAll(args)).0
    ensures r.1 == ReadAll(read, s, LeavesAll(args)).1
    decreases NodeCountAll(args), 1
  {
    var r := OutOp(read, s, args);
    (Tuple(r.0), r.1)
  }

  // ---------------------------------------------------------------------------
  // Writing: InOp and set

  /** A storage seen through its accessor's `set`: the values it has been
      handed, in order. */
  class Sink {
    var writes: seq<Value>

    constructor ()
      ensures writes == []
    {
      writes := [];
    }

    /** `AccessorT<StorageT, V>::set(tgt, v)`. */
    method Write(v: Value)
      modifies this
      ensures writes == old(writes) + [v]
    {
      writes := writes + [v];
    }
  }

  /** `InOp::set_to`: a scalar goes to the accessor, a nested tuple is
      written with `InOp::set`. */
  method SetTo(tgt: Sink, v: Tree)
    requires WellFormed(ShapeOf(v))
    modifies tgt
    ensures tgt.writes == old(tgt.writes) + Flatten(v)
    decreases v
  {
    match v
    case Scalar(x) =>
      tgt.Write(x);
    case Tuple(ts) =>
      SetTuple(tgt, ts);
  }

  /** `InOp<Args...>::set` and the free `set<AccessorT>(tgt, src)`: every
      leaf of `src`, left to right, depth first, goes to the storage once. */
  method SetTuple(tgt: Sink, src: seq<Tree>)
    requires |src| >= 1 && AllWellFormed(ShapesOf(src))
    modifies tgt
    ensures tgt.writes == old(tgt.writes) + FlattenAll(src)
    decreases src, 1
  {
    SetFrom(tgt, src, 0);
  }

  lemma {:induction false} AllWellFormedAt(ts: seq<Tree>, i: nat)
    requires i < |ts| && AllWellFormed(ShapesOf(ts))
    ensures WellFormed(ShapeOf(ts[i]))
    decreases i
  {
    if i > 0 {
      assert ts[1..][i - 1] == ts[i];
      AllWellFormedAt(ts[1..], i - 1);
    }
  }

  /** `InOp::set_` with a selector at element `i`: that element, then the
      ones after it. */
  method SetFrom(tgt: Sink, src: seq<Tree>, i: nat)
    requires i < |src| && AllWellFormed(ShapesOf(src))
    modifies tgt
    ensures tgt.writes == old(tgt.writes) + FlattenAll(src[i..])
    decreases src, 0, |src| - i
  {
    AllWellFormedAt(src, i);
    SetTo(tgt, src[i]);
    assert src[i..][1..] == src[i + 1..];
    if i + 1 < |src| {
      SetFrom(tgt, src, i + 1);
    }
  }

  // ---------------------------------------------------------------------------
  // Round trip through a first-in first-out storage

  /** The value an accessor produces for an element it has nothing for. */
  function Default(k: Kind): (v: Value)
    ensures KindOf(v) == k
  {
    match k
    case IntKind => Int(0)
    case StrKind => Str("")
  }

  /** A storage that hands back, in order, the values written to it; a
      value of the wrong type is not consumed. */
  function QueueRead(q: seq<Value>, k: Kind): (r: (Value, seq<Value>))
    ensures KindOf(r.0) == k
  {
    if |q| > 0 && KindOf(q[0]) == k then (q[0], q[1..]) else (Default(k), q)
  }

  lemma QueueReadWellTyped()
    ensures WellTyped(QueueRead)
  {
    forall q: seq<Value>, k: Kind
      ensures KindOf(QueueRead(q, k).0) == k
    {
    }
  }

  lemma {:induction false} RoundTripSeq(ts: seq<Tree>, rest: seq<Value>)
    requires |ts| >= 1 && AllWellFormed(ShapesOf(ts))
    ensures WellTyped(QueueRead)
    ensures OutOp(QueueRead, FlattenAll(ts) + rest, ShapesOf(ts)) == (ts, rest)
    decreases ts, 1
  {
    QueueReadWellTyped();
    var ss := ShapesOf(ts);
    var mid := FlattenAll(ts[1..]) + rest;
    var q := FlattenAll(ts) + rest;
    assert ss[0] == ShapeOf(ts[0]) && ss[1..] == ShapesOf(ts[1..]);
    assert q == Flatten(ts[0]) + mid by {
      assert FlattenAll(ts) == Flatten(ts[0]) + FlattenAll(ts[1..]);
    }
    RoundTripTree(ts[0], mid);
    assert [ss[0]] == [ShapeOf(ts[0])];
    if |ts| >= 2 {
      RoundTripSeq(ts[1..], rest);
      assert OutOp(QueueRead, q, ss) == ([ts[0]] + ts[1..], rest) by {
        assert OutOp(QueueRead, q, [ss[0]]) == ([ts[0]], mid);
        assert OutOp(QueueRead, mid, ss[1..]) == (ts[1..], rest);
      }
      assert [ts[0]] + ts[1..] == ts;
    } else {
      assert ts == [ts[0]] && ss == [ss[0]];
      assert mid == rest by {
        assert ts[1..] == [];
      }
    }
  }

  lemma {:induction false} RoundTripTree(t: Tree, rest: seq<Value>)
    requires WellFormed(ShapeOf(t))
    ensures WellTyped(QueueRead)
    ensures OutOp(QueueRead, Flatten(t) + rest, [ShapeOf(t)]) == ([t], rest)
    decreases t, 0
  {
    QueueReadWellTyped();
    match t
    case Scalar(v) =>
      assert ([v] + rest)[1..] == rest;
    case Tuple(es) =>
      RoundTripSeq(es, rest);
  }

  /** Reading with `get_similar`, on the tuple as template, from a
      first-in first-out storage whose next values are the ones `set` wrote
      for that tuple gives the tuple back, consumes exactly the written
      leaves and leaves whatever followed them. */
  lemma SetThenGetSimilar(src: seq<Tree>, rest: seq<Value>)
    requires |src| >= 1 && AllWellFormed(ShapesOf(src))
    ensures WellTyped(QueueRead)
    ensures GetSimilar(QueueRead, FlattenAll(src) + rest, ShapesOf(src)) == (Tuple(src), rest)
  {
    RoundTripSeq(src, rest);
  }

  /** Copies a tuple through a fresh storage: `set`, then `get_similar`. */
  method Transfer(src: seq<Tree>) returns (copy: Tree)
    requires |src| >= 1 && AllWellFormed(ShapesOf(src))
    ensures copy == Tuple(src)
  {
    var sink := new Sink();
    SetTuple(sink, src);
    SetThenGetSimilar(src, []);
    assert sink.writes == FlattenAll(src) + [];
    copy := GetSimilar(QueueRead, sink.writes, ShapesOf(src)).0;
  }
}
