/** What applying operations does to the contents of an array: the effect of
    one operation, the replay of a log of them, the snapshot a producer
    starts with, and the values the observable count takes. */
module OperationLog {
  import opened Operations

  /** The operations a Swift array accepts without a bounds abort: an
      insertion index may equal the length, a replaced or removed index must
      name an element. */
  predicate Applicable<T>(s: seq<T>, op: Operation<T>)
  {
    match op
    case Append(_) => true
    case Insert(_, i) => 0 <= i <= |s|
    case Update(_, i) => 0 <= i < |s|
    case RemoveElement(i) => 0 <= i < |s|
  }

  /** The contents after one operation: an append adds at the end, an insert
      shifts the later elements right, an update replaces in place, a remove
      shifts the later elements left. */
  function Applied<T>(s: seq<T>, op: Operation<T>): (r: seq<T>)
    requires Applicable(s, op)
    ensures op.Append? ==> |r| == |s| + 1 && r[|s|] == op.value
    ensures op.Append? ==> forall k :: 0 <= k < |s| ==> r[k] == s[k]
    ensures op.Insert? ==> |r| == |s| + 1 && r[op.atIndex] == op.value
    ensures op.Insert? ==> forall k :: 0 <= k < op.atIndex ==> r[k] == s[k]
    ensures op.Insert? ==> forall k :: op.atIndex < k < |r| ==> r[k] == s[k - 1]
    ensures op.Update? ==> |r| == |s| && r[op.atIndex] == op.value
    ensures op.Update? ==> forall k :: 0 <= k < |s| && k != op.atIndex ==> r[k] == s[k]
    ensures op.RemoveElement? ==> |r| == |s| - 1
    ensures op.RemoveElement? ==> forall k :: 0 <= k < op.atIndex ==> r[k] == s[k]
    ensures op.RemoveElement? ==> forall k :: op.atIndex <= k < |r| ==> r[k] == s[k + 1]
  {
    match op
    case Append(v) => s + [v]
    case Insert(v, i) => s[..i] + [v] + s[i..]
    case Update(v, i) => s[i := v]
    case RemoveElement(i) => s[..i] + s[i + 1..]
  }

  /** Applies `ops` in order, starting from `s`; None when one of them would
      abort on a bad index. */
  function Replay<T>(s: seq<T>, ops: seq<Operation<T>>): Option<seq<T>>
    decreases |ops|
  {
    if ops == [] then Some(s)
    else
      match Replay(s, ops[..|ops| - 1])
      case None => None
      case Some(t) =>
        if Applicable(t, ops[|ops| - 1]) then Some(Applied(t, ops[|ops| - 1])) else None
  }

  /** One `Append` per element, in order: what a producer emits first. */
  function Snapshot<T>(s: seq<T>): (r: seq<Operation<T>>)
    ensures |r| == |s|
    ensures forall i :: 0 <= i < |s| ==> r[i] == Append(s[i])
  {
    seq(|s|, i requires 0 <= i < |s| => Append(s[i]))
  }

  /** Swift's `Array.map` on the elements. */
  function MapSeq<T, U>(f: T -> U, s: seq<T>): (r: seq<U>)
    ensures |r| == |s|
    ensures forall i :: 0 <= i < |s| ==> r[i] == f(s[i])
  {
    seq(|s|, i requires 0 <= i < |s| => f(s[i]))
  }

  /** The operations after which the count property is reassigned. */
  predicate ChangesCount<T>(op: Operation<T>)
  {
    op.Append? || op.RemoveElement?
  }

  /** How many of `ops` reassign the count property. */
  function CountChanges<T>(ops: seq<Operation<T>>): nat
    decreases |ops|
  {
    if ops == [] then 0
    else CountChanges(ops[..|ops| - 1]) + (if ChangesCount(ops[|ops| - 1]) then 1 else 0)
  }

  /** The values the observable count holds in turn: the initial length,
      then the length after each append or remove. There is one new value
      per append or remove and none for an insert or an update, and each new
      value is the length at that point. */
  function CountValues<T>(s: seq<T>, ops: seq<Operation<T>>): (r: seq<int>)
    requires Replay(s, ops).Some?
    ensures |r| == 1 + CountChanges(ops) && r[0] == |s|
    ensures ops != [] && ChangesCount(ops[|ops| - 1]) ==> r[|r| - 1] == |Replay(s, ops).value|
    decreases |ops|
  {
    if ops == [] then [|s|]
    else
      var before := CountValues(s, ops[..|ops| - 1]);
      if ChangesCount(ops[|ops| - 1]) then before + [|Replay(s, ops).value|] else before
  }

  function LastOf<X>(s: seq<X>): X
    requires |s| > 0
  {
    s[|s| - 1]
  }

  /** The inserts applied since the last append or remove. */
  function PendingInserts<T>(ops: seq<Operation<T>>): nat
    decreases |ops|
  {
    if ops == [] || ChangesCount(ops[|ops| - 1]) then 0
    else PendingInserts(ops[..|ops| - 1]) + (if ops[|ops| - 1].Insert? then 1 else 0)
  }

  /** The cached count lags the length by exactly the inserts applied since
      it was last reassigned; updates change neither. */
  lemma {:induction false} CountLag<T>(s: seq<T>, ops: seq<Operation<T>>)
    requires Replay(s, ops).Some?
    ensures LastOf(CountValues(s, ops)) + PendingInserts(ops) == |Replay(s, ops).value|
    decreases |ops|
  {
    if ops != [] && !ChangesCount(ops[|ops| - 1]) {
      CountLag(s, ops[..|ops| - 1]);
    }
  }

  /** Without a pending insert the cached count is the length. */
  lemma {:induction false} CountExactWithoutPendingInsert<T>(s: seq<T>, ops: seq<Operation<T>>)
    requires Replay(s, ops).Some?
    requires forall i :: 0 <= i < |ops| ==> !ops[i].Insert?
    ensures LastOf(CountValues(s, ops)) == |Replay(s, ops).value|
  {
    NoInsertNonePending(ops);
    CountLag(s, ops);
  }

  lemma {:induction false} NoInsertNonePending<T>(ops: seq<Operation<T>>)
    requires forall i :: 0 <= i < |ops| ==> !ops[i].Insert?
    ensures PendingInserts(ops) == 0
    decreases |ops|
  {
    if ops != [] && !ChangesCount(ops[|ops| - 1]) {
      NoInsertNonePending(ops[..|ops| - 1]);
    }
  }

  /** Replaying a concatenation replays the first part, then the second from
      where the first left off; an abort in either part aborts the whole. */
  lemma {:induction false} ReplayConcat<T>(s: seq<T>, a: seq<Operation<T>>, b: seq<Operation<T>>)
    ensures Replay(s, a + b) == if Replay(s, a).Some? then Replay(Replay(s, a).value, b) else None
    decreases |b|
  {
    if b == [] {
      assert a + b == a;
    } else {
      assert (a + b)[..|a + b| - 1] == a + b[..|b| - 1];
      assert (a + b)[|a + b| - 1] == b[|b| - 1];
      ReplayConcat(s, a, b[..|b| - 1]);
    }
  }

  /** A log that replays without an abort replays without one up to any
      point. */
  lemma ReplayPrefix<T>(s: seq<T>, ops: seq<Operation<T>>, k: nat)
    requires Replay(s, ops).Some? && k <= |ops|
    ensures Replay(s, ops[..k]).Some?
  {
    assert ops[..k] + ops[k..] == ops;
    ReplayConcat(s, ops[..k], ops[k..]);
  }

  /** Replaying a snapshot into an empty array rebuilds the elements. */
  lemma {:induction false} SnapshotReplay<T>(s: seq<T>)
    ensures Replay([], Snapshot(s)) == Some(s)
    decreases |s|
  {
    if s != [] {
      var n := |s| - 1;
      assert Snapshot(s)[..n] == Snapshot(s[..n]);
      SnapshotReplay(s[..n]);
      assert s[..n] + [s[n]] == s;
    }
  }

  /** A subscriber that receives the snapshot taken from `s0` and then every
      operation applied after it, none lost and none repeated, rebuilds
      exactly what the array holds. */
  lemma SnapshotThenLater<T>(s0: seq<T>, later: seq<Operation<T>>)
    ensures Replay([], Snapshot(s0) + later) == Replay(s0, later)
  {
    ReplayConcat([], Snapshot(s0), later);
    SnapshotReplay(s0);
  }

  /** Mapping the contents and the operation commutes with applying it. */
  lemma MapApplied<T, U>(f: T -> U, s: seq<T>, op: Operation<T>)
    requires Applicable(s, op)
    ensures Applicable(MapSeq(f, s), op.Map(f))
    ensures Applied(MapSeq(f, s), op.Map(f)) == MapSeq(f, Applied(s, op))
  {
  }

  lemma {:induction false} MapReplay<T, U>(f: T -> U, s: seq<T>, ops: seq<Operation<T>>)
    requires Replay(s, ops).Some?
    ensures Replay(MapSeq(f, s), MapOps(f, ops)) == Some(MapSeq(f, Replay(s, ops).value))
    decreases |ops|
  {
    if ops != [] {
      var n := |ops| - 1;
      assert MapOps(f, ops)[..n] == MapOps(f, ops[..n]);
      MapReplay(f, s, ops[..n]);
      MapApplied(f, Replay(s, ops[..n]).value, ops[n]);
    }
  }

  lemma MapSnapshot<T, U>(f: T -> U, s: seq<T>)
    ensures MapOps(f, Snapshot(s)) == Snapshot(MapSeq(f, s))
  {
  }

  /** A mirror fed the mapped snapshot of `s0` and the mapped later
      operations holds the mapped contents of the source. */
  lemma MirrorReplay<T, U>(f: T -> U, s0: seq<T>, later: seq<Operation<T>>)
    requires Replay(s0, later).Some?
    ensures Replay([], MapOps(f, Snapshot(s0) + later)) == Some(MapSeq(f, Replay(s0, later).value))
  {
    MapOpsConcat(f, Snapshot(s0), later);
    MapSnapshot(f, s0);
    SnapshotThenLater(MapSeq(f, s0), MapOps(f, later));
    MapReplay(f, s0, later);
  }

  /** A mirror made with the identity receives a stream that replays to the
      source's own contents. */
  lemma MirrorIdentity<T>(s0: seq<T>, later: seq<Operation<T>>)
    ensures Replay([], MapOps(x => x, Snapshot(s0) + later)) == Replay(s0, later)
  {
    MapOpsIdentity(Snapshot(s0) + later);
    SnapshotThenLater(s0, later);
  }

  /** A mirror through `g` of a mirror through `f` receives the stream of a
      single mirror through their composition, and so holds the contents of
      the source mapped by the composition. */
  lemma MirrorComposition<T, U, V>(f: T -> U, g: U -> V, s0: seq<T>, later: seq<Operation<T>>)
    requires Replay(s0, later).Some?
    ensures MapOps(g, MapOps(f, Snapshot(s0) + later)) == MapOps(x => g(f(x)), Snapshot(s0) + later)
    ensures Replay([], MapOps(g, MapOps(f, Snapshot(s0) + later)))
         == Some(MapSeq(x => g(f(x)), Replay(s0, later).value))
  {
    MapOpsComposition(Snapshot(s0) + later, f, g);
    MirrorReplay(x => g(f(x)), s0, later);
  }

  /** From [1, 2, 3, 4], an insert at 1 and then an append leave the count
      at 6: the insert grows the array even though the count does not move
      until the append. */
  lemma InsertThenAppendCount()
    ensures Replay([1, 2, 3, 4], [Insert(657, 1), Append(656)]) == Some([1, 657, 2, 3, 4, 656])
    ensures CountValues([1, 2, 3, 4], [Insert(657, 1), Append(656)]) == [4, 6]
  {
    var ops: seq<Operation<int>> := [Insert(657, 1), Append(656)];
    assert ops[..1] == [Insert(657, 1)];
    var s: seq<int> := [1, 2, 3, 4];
    assert ops[..1][..0] == [];
    assert Replay(s, ops[..1][..0]) == Some(s);
    assert s[..1] + [657] + s[1..] == [1, 657, 2, 3, 4];
    assert Replay(s, ops[..1]) == Some([1, 657, 2, 3, 4]);
    assert [1, 657, 2, 3, 4] + [656] == [1, 657, 2, 3, 4, 656];
  }

  /** From [1, 2, 3, 4], removing index 1 leaves [1, 3, 4]. */
  lemma RemoveExample()
    ensures Applied([1, 2, 3, 4], RemoveElement(1)) == [1, 3, 4]
  {
  }
}
