/** Why a `Buffer` may be read as a plain string. Copies of a Buffer, wherever they sit (in a
    BufferList, in a NetParser), share one reference-counted storage; here the storage, the
    counts and the handles are explicit, and no run can tell them from strings of one's own. */
module Sharing {
  import opened Bytes

  /** One shared string and the number of handles that hold it. */
  datatype Cell = Cell(text: seq<Byte>, refs: nat)

  /** The two fields of a Buffer. */
  datatype Handle = Handle(storage: Option<nat>, offset: nat)

  type Cells = map<nat, Cell>

  type Handles = map<nat, Handle>

  datatype Heap = Heap(cells: Cells, handles: Handles, next: nat)

  datatype Op =
    | Make(h: nat, text: seq<Byte>)   // h = Buffer(text)
    | Copy(h: nat, from: nat)         // h = from
    | RemovePrefix(h: nat, n: nat)
    | Destroy(h: nat)

  ghost function Users(handles: Handles, a: nat): set<nat> {
    set h | h in handles && handles[h].storage == Some(a)
  }

  ghost predicate Sound(heap: Heap) {
    && (forall h | h in heap.handles :: SoundHandle(heap.cells, heap.handles[h]))
    && (forall a | a in heap.cells :: SoundCell(heap, a))
  }

  /** The count is the number of handles that hold the storage, and it is never 0. */
  ghost predicate SoundCell(heap: Heap, a: nat)
    requires a in heap.cells
  {
    a < heap.next && heap.cells[a].refs == |Users(heap.handles, a)| > 0
  }

  /** A handle does not dangle, and lets go of what it has exhausted. */
  ghost predicate SoundHandle(cells: Cells, handle: Handle) {
    handle.storage.Some? ==>
      && handle.storage.value in cells
      && var size := |cells[handle.storage.value].text|;
         handle.offset < size || handle.offset == size == 0
  }

  function Str(cells: Cells, handle: Handle): seq<Byte> {
    if handle.storage.None? || handle.storage.value !in cells then []
    else
      var text := cells[handle.storage.value].text;
      if handle.offset <= |text| then text[handle.offset..] else []
  }

  /** What every handle shows. */
  function Shown(heap: Heap): map<nat, seq<Byte>> {
    map h | h in heap.handles :: Str(heap.cells, heap.handles[h])
  }

  /** One handle fewer on `storage`; the last one frees it. */
  function LetGo(cells: Cells, storage: Option<nat>): Cells {
    if storage.None? || storage.value !in cells then cells
    else
      var cell := cells[storage.value];
      if cell.refs <= 1 then cells - {storage.value}
      else cells[storage.value := Cell(cell.text, cell.refs - 1)]
  }

  /** One handle more. */
  function TakeHold(cells: Cells, storage: Option<nat>): Cells {
    if storage.None? || storage.value !in cells then cells
    else
      var cell := cells[storage.value];
      cells[storage.value := Cell(cell.text, cell.refs + 1)]
  }

  function Release(heap: Heap, h: nat): Heap {
    if h !in heap.handles then heap
    else heap.(handles := heap.handles - {h}, cells := LetGo(heap.cells, heap.handles[h].storage))
  }

  function Hold(heap: Heap, h: nat, handle: Handle): Heap {
    heap.(handles := heap.handles[h := handle], cells := TakeHold(heap.cells, handle.storage))
  }

  function Store(heap: Heap, h: nat, text: seq<Byte>): Heap {
    Heap(heap.cells[heap.next := Cell(text, 1)], heap.handles[h := Handle(Some(heap.next), 0)], heap.next + 1)
  }

  /** `n` bytes off the front of `h`, which lets go of its storage at the end of it. */
  function Discard(heap: Heap, h: nat, n: nat): Heap
    requires h in heap.handles
  {
    var handle := heap.handles[h];
    if handle.storage.Some? && n == |Str(heap.cells, handle)|
    then Hold(Release(heap, h), h, Handle(None, handle.offset + n))
    else heap.(handles := heap.handles[h := Handle(handle.storage, handle.offset + n)])
  }

  /** One operation on the shared heap, and whether it threw. */
  function Step(heap: Heap, op: Op): (Heap, bool) {
    match op
    case Make(h, text) =>
      (Store(Release(heap, h), h, text), false)
    case Copy(h, from) =>
      if h == from || from !in heap.handles then (heap, false)
      else (Hold(Release(heap, h), h, heap.handles[from]), false)
    case RemovePrefix(h, n) =>
      if h !in heap.handles then (heap, false)
      else if n > |Str(heap.cells, heap.handles[h])| then (heap, true)
      else (Discard(heap, h, n), false)
    case Destroy(h) => (Release(heap, h), false)
  }

  /** The same operation when every handle owns a string of its own. */
  function OwnStep(own: map<nat, seq<Byte>>, op: Op): (map<nat, seq<Byte>>, bool) {
    match op
    case Make(h, text) => (own[h := text], false)
    case Copy(h, from) => if from in own then (own[h := own[from]], false) else (own, false)
    case RemovePrefix(h, n) =>
      if h !in own then (own, false)
      else if n > |own[h]| then (own, true)
      else (own[h := own[h][n..]], false)
    case Destroy(h) => (own - {h}, false)
  }

  lemma SubsetSize(a: set<nat>, b: set<nat>)
    requires a <= b
    ensures |a| <= |b|
  {
    assert b == a + (b - a);
  }

  lemma ReleaseKeepsCell(heap: Heap, h: nat, a: nat)
    requires Sound(heap) && h in heap.handles && a in Release(heap, h).cells
    ensures SoundCell(Release(heap, h), a)
  {
    assert SoundCell(heap, a);
    assert Users(Release(heap, h).handles, a) == Users(heap.handles, a) - {h};
  }

  /** Another handle loses nothing when `h` goes: its storage has a second user. */
  lemma ReleaseKeepsHandle(heap: Heap, h: nat, k: nat)
    requires Sound(heap) && h in heap.handles && k in heap.handles && k != h
    ensures SoundHandle(Release(heap, h).cells, heap.handles[k])
    ensures Str(Release(heap, h).cells, heap.handles[k]) == Str(heap.cells, heap.handles[k])
  {
    assert SoundHandle(heap.cells, heap.handles[k]);
    if heap.handles[k].storage.Some? && heap.handles[k].storage == heap.handles[h].storage {
      var a := heap.handles[k].storage.value;
      assert SoundCell(heap, a);
      assert |{h, k}| == 2;
      SubsetSize({h, k}, Users(heap.handles, a));
    }
  }

  /** `h` is gone, and the others show what they showed. */
  lemma OneGone(heap: Heap, r: Heap, h: nat)
    requires r.handles == heap.handles - {h}
    requires forall k | k in r.handles :: Str(r.cells, r.handles[k]) == Str(heap.cells, heap.handles[k])
    ensures Shown(r) == Shown(heap) - {h}
  {
  }

  lemma ReleaseIsSound(heap: Heap, h: nat)
    requires Sound(heap)
    ensures Sound(Release(heap, h))
    ensures Shown(Release(heap, h)) == Shown(heap) - {h}
  {
    var r := Release(heap, h);
    if h in heap.handles {
      forall a | a in r.cells ensures SoundCell(r, a) {
        ReleaseKeepsCell(heap, h, a);
      }
      forall k | k in r.handles
        ensures SoundHandle(r.cells, r.handles[k])
        ensures Str(r.cells, r.handles[k]) == Str(heap.cells, heap.handles[k])
      {
        ReleaseKeepsHandle(heap, h, k);
      }
    }
    OneGone(heap, r, h);
  }

  /** Only `h` changed, and it shows `s`. */
  lemma OneShownDifferently(heap: Heap, r: Heap, h: nat, s: seq<Byte>)
    requires r.handles.Keys == heap.handles.Keys + {h} && Str(r.cells, r.handles[h]) == s
    requires forall k | k in heap.handles && k != h ::
               Str(r.cells, r.handles[k]) == Str(heap.cells, heap.handles[k])
    ensures Shown(r) == Shown(heap)[h := s]
  {
  }

  lemma HoldKeepsCell(heap: Heap, h: nat, handle: Handle, a: nat)
    requires Sound(heap) && h !in heap.handles && a in heap.cells
    ensures SoundCell(Hold(heap, h, handle), a)
  {
    assert SoundCell(heap, a);
    assert Users(Hold(heap, h, handle).handles, a)
        == if handle.storage == Some(a) then Users(heap.handles, a) + {h} else Users(heap.handles, a);
  }

  lemma HoldKeepsHandle(heap: Heap, h: nat, handle: Handle, other: Handle)
    requires SoundHandle(heap.cells, other)
    ensures SoundHandle(Hold(heap, h, handle).cells, other)
    ensures Str(Hold(heap, h, handle).cells, other) == Str(heap.cells, other)
  {
  }

  lemma HoldIsSound(heap: Heap, h: nat, handle: Handle)
    requires Sound(heap) && h !in heap.handles && SoundHandle(heap.cells, handle)
    ensures Sound(Hold(heap, h, handle))
    ensures Shown(Hold(heap, h, handle)) == Shown(heap)[h := Str(heap.cells, handle)]
  {
    var r := Hold(heap, h, handle);
    forall a | a in r.cells ensures SoundCell(r, a) {
      HoldKeepsCell(heap, h, handle, a);
    }
    forall k | k in r.handles
      ensures SoundHandle(r.cells, r.handles[k])
      ensures Str(r.cells, r.handles[k]) == Str(heap.cells, r.handles[k])
    {
      assert k != h ==> SoundHandle(heap.cells, heap.handles[k]);
      HoldKeepsHandle(heap, h, handle, r.handles[k]);
    }
    OneShownDifferently(heap, r, h, Str(heap.cells, handle));
  }

  lemma StoreKeepsHandle(heap: Heap, h: nat, text: seq<Byte>, k: nat)
    requires Sound(heap) && k in heap.handles
    ensures SoundHandle(Store(heap, h, text).cells, heap.handles[k])
    ensures heap.handles[k].storage != Some(heap.next)
    ensures Str(Store(heap, h, text).cells, heap.handles[k]) == Str(heap.cells, heap.handles[k])
  {
    assert SoundHandle(heap.cells, heap.handles[k]);
    if heap.handles[k].storage.Some? {
      assert SoundCell(heap, heap.handles[k].storage.value);
    }
  }

  lemma StoreKeepsCell(heap: Heap, h: nat, text: seq<Byte>, a: nat)
    requires Sound(heap) && h !in heap.handles && a in Store(heap, h, text).cells
    requires forall k | k in heap.handles :: heap.handles[k].storage != Some(heap.next)
    ensures SoundCell(Store(heap, h, text), a)
  {
    var r := Store(heap, h, text);
    if a == heap.next {
      assert Users(r.handles, a) == {h};
    } else {
      assert SoundCell(heap, a);
      assert Users(r.handles, a) == Users(heap.handles, a);
    }
  }

  lemma StoreIsSound(heap: Heap, h: nat, text: seq<Byte>)
    requires Sound(heap) && h !in heap.handles
    ensures Sound(Store(heap, h, text))
    ensures Shown(Store(heap, h, text)) == Shown(heap)[h := text]
  {
    var r := Store(heap, h, text);
    forall k | k in heap.handles
      ensures SoundHandle(r.cells, heap.handles[k]) && heap.handles[k].storage != Some(heap.next)
      ensures Str(r.cells, heap.handles[k]) == Str(heap.cells, heap.handles[k])
    {
      StoreKeepsHandle(heap, h, text, k);
    }
    forall a | a in r.cells ensures SoundCell(r, a) {
      StoreKeepsCell(heap, h, text, a);
    }
    OneShownDifferently(heap, r, h, text);
  }

  lemma Overwrite<T>(m: map<nat, T>, h: nat, v: T)
    ensures (m - {h})[h := v] == m[h := v]
  {
  }

  lemma CopyIsSound(heap: Heap, h: nat, from: nat)
    requires Sound(heap) && from in heap.handles && h != from
    ensures var r := Hold(Release(heap, h), h, heap.handles[from]);
            Sound(r) && Shown(r) == Shown(heap)[h := Shown(heap)[from]]
  {
    ReleaseIsSound(heap, h);
    if h in heap.handles {
      ReleaseKeepsHandle(heap, h, from);
    } else {
      assert SoundHandle(heap.cells, heap.handles[from]);
    }
    HoldIsSound(Release(heap, h), h, heap.handles[from]);
    Overwrite(Shown(heap), h, Shown(heap)[from]);
  }

  lemma AdvancedHandle(heap: Heap, handle: Handle, n: nat)
    requires SoundHandle(heap.cells, handle) && n <= |Str(heap.cells, handle)|
    requires handle.storage.Some? ==> n < |Str(heap.cells, handle)|
    ensures SoundHandle(heap.cells, Handle(handle.storage, handle.offset + n))
    ensures Str(heap.cells, Handle(handle.storage, handle.offset + n)) == Str(heap.cells, handle)[n..]
  {
  }

  lemma MoveKeepsCell(heap: Heap, h: nat, moved: Handle, a: nat)
    requires Sound(heap) && h in heap.handles && moved.storage == heap.handles[h].storage
    requires a in heap.cells
    ensures SoundCell(heap.(handles := heap.handles[h := moved]), a)
  {
    assert SoundCell(heap, a);
    assert Users(heap.handles[h := moved], a) == Users(heap.handles, a);
  }

  /** Moving an offset touches nothing shared. */
  lemma MoveIsSound(heap: Heap, h: nat, moved: Handle)
    requires Sound(heap) && h in heap.handles && moved.storage == heap.handles[h].storage
    requires SoundHandle(heap.cells, moved)
    ensures var r := heap.(handles := heap.handles[h := moved]);
            Sound(r) && Shown(r) == Shown(heap)[h := Str(heap.cells, moved)]
  {
    var r := heap.(handles := heap.handles[h := moved]);
    forall a | a in heap.cells ensures SoundCell(r, a) {
      MoveKeepsCell(heap, h, moved, a);
    }
    forall k | k in r.handles ensures SoundHandle(r.cells, r.handles[k]) {
      assert k != h ==> SoundHandle(heap.cells, heap.handles[k]);
    }
    OneShownDifferently(heap, r, h, Str(heap.cells, moved));
  }

  lemma ExhaustIsSound(heap: Heap, h: nat, offset: nat)
    requires Sound(heap)
    ensures var r := Hold(Release(heap, h), h, Handle(None, offset));
            Sound(r) && Shown(r) == Shown(heap)[h := []]
  {
    ReleaseIsSound(heap, h);
    HoldIsSound(Release(heap, h), h, Handle(None, offset));
    Overwrite(Shown(heap), h, []);
  }

  lemma DiscardIsSound(heap: Heap, h: nat, n: nat)
    requires Sound(heap) && h in heap.handles && n <= |Shown(heap)[h]|
    ensures Sound(Discard(heap, h, n))
    ensures Shown(Discard(heap, h, n)) == Shown(heap)[h := Shown(heap)[h][n..]]
  {
    var handle := heap.handles[h];
    var shown := Str(heap.cells, handle);
    assert SoundHandle(heap.cells, handle) && Shown(heap)[h] == shown;
    if handle.storage.Some? && n == |shown| {
      var gone := Handle(None, handle.offset + n);
      assert Discard(heap, h, n) == Hold(Release(heap, h), h, gone);
      ExhaustIsSound(heap, h, gone.offset);
      assert shown[n..] == [];
    } else {
      var moved := Handle(handle.storage, handle.offset + n);
      assert Discard(heap, h, n) == heap.(handles := heap.handles[h := moved]);
      AdvancedHandle(heap, handle, n);
      MoveIsSound(heap, h, moved);
    }
  }

  lemma StepIsUnobservable(heap: Heap, op: Op)
    requires Sound(heap)
    ensures var (r, threw) := Step(heap, op);
            Sound(r) && (Shown(r), threw) == OwnStep(Shown(heap), op)
  {
    match op
    case Make(h, text) =>
      ReleaseIsSound(heap, h);
      StoreIsSound(Release(heap, h), h, text);
      Overwrite(Shown(heap), h, text);
    case Copy(h, from) =>
      if from in heap.handles {
        if h == from {
          assert Shown(heap)[h := Shown(heap)[h]] == Shown(heap);
        } else {
          CopyIsSound(heap, h, from);
        }
      }
    case RemovePrefix(h, n) =>
      if h in heap.handles && n <= |Shown(heap)[h]| {
        DiscardIsSound(heap, h, n);
      }
    case Destroy(h) => ReleaseIsSound(heap, h);
  }

  /** What one operation does, in terms of what the handles show; a copy makes no storage, and what
      is exhausted lets go of its own. */
  lemma StepShows(heap: Heap, op: Op)
    requires Sound(heap)
    ensures var (r, threw) := Step(heap, op);
            match op
            case Make(h, text) => !threw && Shown(r) == Shown(heap)[h := text]
            case Copy(h, from) =>
              && !threw && r.cells.Keys <= heap.cells.Keys
              && if from in heap.handles
                 then h in r.handles && r.handles[h] == heap.handles[from]
                      && Shown(r) == Shown(heap)[h := Shown(heap)[from]]
                 else r == heap
            case RemovePrefix(h, n) =>
              && (threw <==> h in heap.handles && n > |Shown(heap)[h]|)
              && if threw || h !in heap.handles then r == heap
                 else Shown(r) == Shown(heap)[h := Shown(heap)[h][n..]]
                      && (n == |Shown(heap)[h]| ==> r.handles[h].storage == None)
            case Destroy(h) => !threw && Shown(r) == Shown(heap) - {h}
  {
    StepIsUnobservable(heap, op);
  }

  function Run(heap: Heap, ops: seq<Op>): (Heap, seq<bool>)
    decreases |ops|
  {
    if ops == [] then (heap, [])
    else
      var (next, threw) := Step(heap, ops[0]);
      var (last, rest) := Run(next, ops[1..]);
      (last, [threw] + rest)
  }

  function OwnRun(own: map<nat, seq<Byte>>, ops: seq<Op>): (map<nat, seq<Byte>>, seq<bool>)
    decreases |ops|
  {
    if ops == [] then (own, [])
    else
      var (next, threw) := OwnStep(own, ops[0]);
      var (last, rest) := OwnRun(next, ops[1..]);
      (last, [threw] + rest)
  }

  /** In every run, every handle shows what it would show had nothing been shared, and the same
      calls throw. */
  lemma {:induction false} SharingIsUnobservable(heap: Heap, ops: seq<Op>)
    requires Sound(heap)
    ensures Sound(Run(heap, ops).0)
    ensures (Shown(Run(heap, ops).0), Run(heap, ops).1) == OwnRun(Shown(heap), ops)
    decreases |ops|
  {
    if ops == [] {
    } else {
      StepIsUnobservable(heap, ops[0]);
      SharingIsUnobservable(Step(heap, ops[0]).0, ops[1..]);
    }
  }

  /** A non-empty string stays in memory exactly as long as some copy still has bytes of it to show. */
  lemma StorageFreedWhenAllDiscarded(heap: Heap, a: nat)
    requires Sound(heap)
    ensures a in heap.cells && heap.cells[a].text != []
            <==> exists h :: h in Users(heap.handles, a) && Str(heap.cells, heap.handles[h]) != []
  {
    if a in heap.cells && heap.cells[a].text != [] {
      assert Users(heap.handles, a) != {};
      var h :| h in Users(heap.handles, a);
      assert SoundHandle(heap.cells, heap.handles[h]);
      assert Str(heap.cells, heap.handles[h]) != [];
    }
  }
}
