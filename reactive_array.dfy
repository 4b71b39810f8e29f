/** The observable array. Every mutator builds an operation and sends it into
    the array's own sink; the array's subscription to that sink applies it to
    the storage synchronously, before the mutator returns. Here the sink is
    the method `Sink`: it applies the operation and records it in the ghost
    log of emitted operations, which is what every subscriber receives. */
module ReactiveArrays {
  import opened Operations
  import opened OperationLog

  class ReactiveArray<T> {
    /** The storage, changed only by `UpdateArray`. */
    var elements: seq<T>
    /** The current value of the count property. */
    var mutableCount: int
    /** The elements the array was created with; they are not emitted. */
    ghost var initial: seq<T>
    /** Every operation sent into the sink, in order. */
    ghost var log: seq<Operation<T>>
    /** Every value the count property has held, in order. */
    ghost var countValues: seq<int>

    /** The storage is the replay of the log over the initial elements, and
        the count property has held exactly the values that replay gives. */
    ghost predicate Valid()
      reads this
    {
      && Replay(initial, log) == Some(elements)
      && countValues == CountValues(initial, log)
      && mutableCount == LastOf(countValues)
    }

    /** An array holding `elements`; the count starts at their number. Called
        with [] it is the empty array. */
    constructor (elements: seq<T>)
      ensures Valid()
      ensures this.elements == elements && initial == elements && log == []
      ensures mutableCount == |elements| && countValues == [|elements|]
    {
      this.elements := elements;
      mutableCount := |elements|;
      initial := elements;
      log := [];
      countValues := [|elements|];
    }

    /** An empty array driven by a producer: each operation the producer has
        emitted so far goes into the sink, in order. */
    constructor FromProducer(ops: seq<Operation<T>>)
      requires Replay([], ops).Some?
      ensures Valid()
      ensures initial == [] && log == ops
      ensures Replay([], ops) == Some(elements)
    {
      elements := [];
      mutableCount := 0;
      initial := [];
      log := [];
      countValues := [0];
      new;
      var i := 0;
      while i < |ops|
        invariant 0 <= i <= |ops|
        invariant Valid() && initial == [] && log == ops[..i]
      {
        ReplayPrefix([], ops, i + 1);
        assert ops[..i + 1][..i] == ops[..i];
        Sink(ops[i]);
        i := i + 1;
      }
      assert ops[..i] == ops;
    }

    /** The array's subscription to its own sink: applies `op` to the
        storage and reassigns the count after an append or a remove. */
    method UpdateArray(op: Operation<T>)
      requires Applicable(elements, op)
      modifies this
      ensures elements == Applied(old(elements), op)
      ensures mutableCount == if ChangesCount(op) then |elements| else old(mutableCount)
      ensures countValues == if ChangesCount(op) then old(countValues) + [|elements|] else old(countValues)
      ensures initial == old(initial) && log == old(log)
    {
      match op
      case Append(v) =>
        elements := elements + [v];
        mutableCount := |elements|;
        countValues := countValues + [mutableCount];
      case Insert(v, i) =>
        elements := elements[..i] + [v] + elements[i..];
      case Update(v, i) =>
        elements := elements[i := v];
      case RemoveElement(i) =>
        elements := elements[..i] + elements[i + 1..];
        mutableCount := |elements|;
        countValues := countValues + [mutableCount];
    }

    /** Emits `op`: the array applies it and every subscriber receives it. */
    method Sink(op: Operation<T>)
      requires Valid() && Applicable(elements, op)
      modifies this
      ensures Valid()
      ensures elements == Applied(old(elements), op)
      ensures initial == old(initial) && log == old(log) + [op]
      ensures mutableCount == if ChangesCount(op) then |elements| else old(mutableCount)
      ensures countValues == if ChangesCount(op) then old(countValues) + [|elements|] else old(countValues)
    {
      UpdateArray(op);
      log := log + [op];
      assert log[..|log| - 1] == old(log);
    }

    method Append(element: T)
      requires Valid()
      modifies this
      ensures Valid()
      ensures elements == old(elements) + [element]
      ensures initial == old(initial) && log == old(log) + [Operation.Append(element)]
      ensures mutableCount == |elements| && countValues == old(countValues) + [|elements|]
    {
      Sink(Operation.Append(element));
    }

    /** A true insertion: the elements from `index` on move one place right.
        The count property is not reassigned. */
    method Insert(newElement: T, index: int)
      requires Valid() && 0 <= index <= |elements|
      modifies this
      ensures Valid()
      ensures elements == old(elements)[..index] + [newElement] + old(elements)[index..]
      ensures initial == old(initial) && log == old(log) + [Operation.Insert(newElement, index)]
      ensures mutableCount == old(mutableCount) && countValues == old(countValues)
    {
      Sink(Operation.Insert(newElement, index));
    }

    /** Replaces the element at `index`; the count property is not
        reassigned. */
    method Update(element: T, index: int)
      requires Valid() && 0 <= index < |elements|
      modifies this
      ensures Valid()
      ensures elements == old(elements)[index := element]
      ensures initial == old(initial) && log == old(log) + [Operation.Update(element, index)]
      ensures mutableCount == old(mutableCount) && countValues == old(countValues)
    {
      Sink(Operation.Update(element, index));
    }

    /** The subscript setter, which goes through `Update`. */
    method Set(index: int, newValue: T)
      requires Valid() && 0 <= index < |elements|
      modifies this
      ensures Valid()
      ensures elements == old(elements)[index := newValue]
      ensures initial == old(initial) && log == old(log) + [Operation.Update(newValue, index)]
      ensures mutableCount == old(mutableCount) && countValues == old(countValues)
    {
      Update(newValue, index);
    }

    /** Removes the element at `index`; the later elements move one place
        left. */
    method RemoveAtIndex(index: int)
      requires Valid() && 0 <= index < |elements|
      modifies this
      ensures Valid()
      ensures elements == old(elements)[..index] + old(elements)[index + 1..]
      ensures initial == old(initial) && log == old(log) + [Operation.RemoveElement(index)]
      ensures mutableCount == |elements| && countValues == old(countValues) + [|elements|]
    {
      Sink(Operation.RemoveElement(index));
    }

    /** The contents: the replay of every emitted operation over the initial
        elements, and equally over an empty array once the initial elements
        are announced as appends. */
    function ToArray(): (r: seq<T>)
      reads this
      requires Valid()
      ensures Replay(initial, log) == Some(r)
      ensures Replay([], Snapshot(initial) + log) == Some(r)
    {
      SnapshotThenLater(initial, log);
      elements
    }

    /** The subscript getter. */
    function Get(index: int): (r: T)
      reads this
      requires Valid() && 0 <= index < Count()
      ensures r == ToArray()[index]
    {
      elements[index]
    }

    function Count(): (n: nat)
      reads this
      requires Valid()
      ensures n == |ToArray()|
    {
      |elements|
    }

    function IsEmpty(): (r: bool)
      reads this
      requires Valid()
      ensures r <==> Count() == 0
      ensures r <==> ToArray() == []
    {
      |elements| == 0
    }

    function StartIndex(): (r: int)
      reads this
      requires Valid()
      ensures r == 0
      ensures r == EndIndex() <==> IsEmpty()
    {
      0
    }

    function EndIndex(): (r: int)
      reads this
      requires Valid()
      ensures r == Count()
    {
      |elements|
    }

    function First(): (r: Option<T>)
      reads this
      requires Valid()
      ensures r.None? <==> IsEmpty()
      ensures r.Some? ==> r.value == Get(StartIndex())
    {
      if |elements| == 0 then None else Some(elements[0])
    }

    function Last(): (r: Option<T>)
      reads this
      requires Valid()
      ensures r.None? <==> IsEmpty()
      ensures r.Some? ==> r.value == Get(EndIndex() - 1)
    {
      if |elements| > 0 then Some(elements[|elements| - 1]) else None
    }

    /** The current value of the count property: the last value it was
        given, which trails the length by the inserts applied since the last
        append or remove. */
    function ObservableCount(): (n: int)
      reads this
      requires Valid()
      ensures n == LastOf(CountValues(initial, log))
      ensures n + PendingInserts(log) == Count()
    {
      CountLag(initial, log);
      mutableCount
    }

    /** What a producer emits on start: one append per current element, in
        order; the operations emitted later follow it (see `InSync`). */
    function Producer(): (r: seq<Operation<T>>)
      reads this
      requires Valid()
      ensures |r| == Count()
      ensures forall i :: 0 <= i < |r| ==> r[i] == Operation.Append(ToArray()[i])
      ensures Replay([], r) == Some(ToArray())
    {
      SnapshotReplay(elements);
      Snapshot(elements)
    }

    /** A new array driven by this one's producer with `f` applied to each
        operation. */
    method Mirror<U>(f: T -> U) returns (m: ReactiveArray<U>)
      requires Valid()
      ensures fresh(m)
      ensures m.Valid() && m.initial == [] && m.log == MapOps(f, Producer())
      ensures m.ToArray() == MapSeq(f, ToArray())
      ensures InSync(this, m, f, elements, |log|)
    {
      MirrorReplay(f, elements, []);
      assert Snapshot(elements) + [] == Snapshot(elements);
      m := new ReactiveArray<U>.FromProducer(MapOps(f, Producer()));
      assert log[..|log|] == log;
    }
  }

  /** `mirror` has received the mapped producer stream of `source` started
      after `since` operations, when `source` held `snapshot`: the mapped
      snapshot, then every operation `source` emitted afterwards, mapped. */
  ghost predicate InSync<T, U>(source: ReactiveArray<T>, mirror: ReactiveArray<U>, f: T -> U,
                               snapshot: seq<T>, since: nat)
    reads source, mirror
  {
    && source.Valid() && mirror.Valid() && mirror.initial == []
    && since <= |source.log|
    && Replay(source.initial, source.log[..since]) == Some(snapshot)
    && mirror.log == MapOps(f, Snapshot(snapshot) + source.log[since..])
  }

  /** A mirror in sync holds the mapped contents of its source. */
  lemma InSyncMirrors<T, U>(source: ReactiveArray<T>, mirror: ReactiveArray<U>, f: T -> U,
                            snapshot: seq<T>, since: nat)
    requires InSync(source, mirror, f, snapshot, since)
    ensures mirror.elements == MapSeq(f, source.elements)
  {
    var later := source.log[since..];
    assert source.log[..since] + later == source.log;
    ReplayConcat(source.initial, source.log[..since], later);
    MirrorReplay(f, snapshot, later);
  }

  /** One emission on `source`, delivered first to its own subscription and
      then to the mirror's, which applies the mapped operation. */
  method Forward<T, U>(source: ReactiveArray<T>, mirror: ReactiveArray<U>, f: T -> U,
                       op: Operation<T>, ghost snapshot: seq<T>, ghost since: nat)
    requires source as object != mirror as object
    requires InSync(source, mirror, f, snapshot, since)
    requires Applicable(source.elements, op)
    modifies source, mirror
    ensures InSync(source, mirror, f, snapshot, since)
    ensures source.elements == Applied(old(source.elements), op)
    ensures source.initial == old(source.initial) && source.log == old(source.log) + [op]
    ensures mirror.initial == old(mirror.initial) && mirror.log == old(mirror.log) + [op.Map(f)]
    ensures mirror.elements == Applied(old(mirror.elements), op.Map(f))
    ensures source.mutableCount == if ChangesCount(op) then |source.elements| else old(source.mutableCount)
    ensures source.countValues ==
              if ChangesCount(op) then old(source.countValues) + [|source.elements|] else old(source.countValues)
    ensures mirror.mutableCount == if ChangesCount(op) then |mirror.elements| else old(mirror.mutableCount)
    ensures mirror.countValues ==
              if ChangesCount(op) then old(mirror.countValues) + [|mirror.elements|] else old(mirror.countValues)
    ensures mirror.elements == MapSeq(f, source.elements)
  {
    ghost var later := source.log[since..];
    InSyncMirrors(source, mirror, f, snapshot, since);
    MapApplied(f, source.elements, op);
    source.Sink(op);
    mirror.Sink(op.Map(f));
    assert source.log[..since] == old(source.log)[..since];
    assert source.log[since..] == later + [op];
    assert Snapshot(snapshot) + source.log[since..] == (Snapshot(snapshot) + later) + [op];
    MapOpsConcat(f, Snapshot(snapshot) + later, [op]);
    InSyncMirrors(source, mirror, f, snapshot, since);
  }

  /** The mirror example: [1, 2, 3, 4] mirrored through x + 10, then an
      append of 5 reaches the mirror as an append of 15. */
  method MirrorExample()
  {
    var a := new ReactiveArray<int>([1, 2, 3, 4]);
    var f := (x: int) => x + 10;
    var m := a.Mirror(f);
    assert MapSeq(f, [1, 2, 3, 4]) == [11, 12, 13, 14];
    assert m.ToArray() == [11, 12, 13, 14];
    Forward(a, m, f, Operation.Append(5), [1, 2, 3, 4], 0);
    assert m.log[|m.log| - 1] == Operation.Append(15);
    assert a.elements == [1, 2, 3, 4, 5];
    assert MapSeq(f, [1, 2, 3, 4, 5]) == [11, 12, 13, 14, 15];
    assert m.ToArray() == [11, 12, 13, 14, 15];
  }
}
