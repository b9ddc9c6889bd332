/** Strings that discard bytes from the front (libsponge/util/buffer.cc): one piece, a list of
    pieces, and a list of views of them. */
module Buffers {
  import opened Bytes

  // ---- The specification: dropping a prefix of a string in pieces --------------------------------

  /** The pieces left after dropping `n` bytes; None when there are not that many. */
  function Drop(pieces: seq<seq<Byte>>, n: nat): Option<seq<seq<Byte>>> {
    if n == 0 then Some(pieces)
    else if pieces == [] then None
    else if n < |pieces[0]| then Some([pieces[0][n..]] + pieces[1..])
    else Drop(pieces[1..], n - |pieces[0]|)
  }

  /** Whatever the pieces, and wherever empty ones stand among them, `Drop` drops from the string. */
  lemma {:induction false} DropDrops(pieces: seq<seq<Byte>>, n: nat)
    ensures Drop(pieces, n).Some? <==> n <= |Flatten(pieces)|
    ensures Drop(pieces, n).Some? ==> Flatten(Drop(pieces, n).value) == Flatten(pieces)[n..]
  {
    if n == 0 || pieces == [] {
    } else if n < |pieces[0]| {
      assert ([pieces[0][n..]] + pieces[1..])[1..] == pieces[1..];
    } else {
      DropDrops(pieces[1..], n - |pieces[0]|);
    }
  }

  /** Which pieces are left. The prefix ends in the `k`-th piece, before which there are `gone` bytes;
      a piece used up to its last byte goes with it. */
  lemma {:induction false} PiecesLeft(pieces: seq<seq<Byte>>, n: nat) returns (k: nat, gone: nat)
    requires 0 < n <= |Flatten(pieces)|
    ensures 1 <= k <= |pieces| && gone == |Flatten(pieces[..k - 1])|
    ensures gone < n <= gone + |pieces[k - 1]|
    ensures Drop(pieces, n)
         == Some(if n == gone + |pieces[k - 1]| then pieces[k..] else [pieces[k - 1][n - gone..]] + pieces[k..])
  {
    if n <= |pieces[0]| {
      k, gone := 1, 0;
    } else {
      var rest := pieces[1..];
      k, gone := PiecesLeft(rest, n - |pieces[0]|);
      assert pieces[..k][1..] == rest[..k - 1];
      assert rest[k..] == pieces[k + 1..];
      k, gone := k + 1, |pieces[0]| + gone;
    }
  }

  /** Dropping nothing changes nothing, empty pieces in front included. */
  lemma NothingDropped(pieces: seq<seq<Byte>>)
    ensures Drop(pieces, 0) == Some(pieces)
  {
  }

  /** Dropping in two goes is dropping once. */
  lemma {:induction false} DropTwice(pieces: seq<seq<Byte>>, m: nat, n: nat)
    requires m <= |Flatten(pieces)|
    ensures Drop(pieces, m).Some?
    ensures Drop(Drop(pieces, m).value, n) == Drop(pieces, m + n)
  {
    if m == 0 {
    } else if m < |pieces[0]| {
      var rest := [pieces[0][m..]] + pieces[1..];
      assert rest[1..] == pieces[1..];
      if n < |rest[0]| {
        assert rest[0][n..] == pieces[0][m + n..];
      }
    } else {
      DropTwice(pieces[1..], m - |pieces[0]|, n);
    }
  }

  // ---- Buffer -----------------------------------------------------------------------------------

  /** A reference-counted string: storage shared with every copy, and an offset of its own. What is
      shared never changes, so here it is a value. */
  class Buffer {
    var storage: Option<seq<Byte>>
    var startingOffset: nat

    ghost predicate Valid()
      reads this
    {
      storage.Some? ==> startingOffset <= |storage.value|
    }

    function Str(): seq<Byte>
      requires Valid()
      reads this
    {
      if storage.None? then [] else storage.value[startingOffset..]
    }

    constructor Empty()
      ensures Valid() && Str() == []
    {
      storage, startingOffset := None, 0;
    }

    constructor (str: seq<Byte>)
      ensures Valid() && Str() == str
    {
      storage, startingOffset := Some(str), 0;
    }

    constructor Copy(other: Buffer)
      requires other.Valid()
      ensures Valid() && Str() == other.Str()
    {
      storage, startingOffset := other.storage, other.startingOffset;
    }

    method At(n: nat) returns (r: Result<Byte>)
      requires Valid()
      ensures r == if n < |Str()| then Ok(Str()[n]) else Threw(OutOfRange)
    {
      r := if n < |Str()| then Ok(Str()[n]) else Threw(OutOfRange);
    }

    method RemovePrefix(n: nat) returns (r: Result<()>)
      requires Valid()
      modifies this
      ensures Valid()
      ensures r == if n <= |old(Str())| then Ok(()) else Threw(OutOfRange)
      ensures Str() == if r.Ok? then old(Str())[n..] else old(Str())
      ensures r.Ok? && |old(Str())| == n && old(storage).Some? ==> storage == None
    {
      if n > |Str()| {
        return Threw(OutOfRange);
      }
      startingOffset := startingOffset + n;
      if storage.Some? && startingOffset == |storage.value| {
        storage := None;
      }
      return Ok(());
    }
  }

  // ---- BufferList -------------------------------------------------------------------------------

  ghost predicate AllValid(bufs: seq<Buffer>)
    reads bufs
  {
    forall b | b in bufs :: b.Valid()
  }

  ghost predicate Distinct(bufs: seq<Buffer>) {
    bufs != [] ==> bufs[0] !in bufs[1..] && Distinct(bufs[1..])
  }

  lemma {:induction false} DistinctPushed(bufs: seq<Buffer>, b: Buffer)
    requires Distinct(bufs) && b !in bufs
    ensures Distinct(bufs + [b])
  {
    if bufs != [] {
      assert (bufs + [b])[1..] == bufs[1..] + [b];
      DistinctPushed(bufs[1..], b);
    }
  }

  /** What each buffer of a list shows. */
  ghost function Strs(bufs: seq<Buffer>): (strs: seq<seq<Byte>>)
    requires AllValid(bufs)
    reads bufs
    ensures |strs| == |bufs|
  {
    if bufs == [] then [] else [bufs[0].Str()] + Strs(bufs[1..])
  }

  lemma {:induction false} StrsAt(bufs: seq<Buffer>, i: nat)
    requires AllValid(bufs) && i < |bufs|
    ensures Strs(bufs)[i] == bufs[i].Str()
  {
    if i > 0 {
      StrsAt(bufs[1..], i - 1);
    }
  }

  lemma {:induction false} StrsPushed(bufs: seq<Buffer>, b: Buffer)
    requires AllValid(bufs) && b.Valid()
    ensures AllValid(bufs + [b])
    ensures Strs(bufs + [b]) == Strs(bufs) + [b.Str()]
  {
    if bufs == [] {
      assert bufs + [b] == [b];
    } else {
      assert (bufs + [b])[1..] == bufs[1..] + [b];
      StrsPushed(bufs[1..], b);
    }
  }

  class BufferList {
    var buffers: seq<Buffer>

    ghost predicate Valid()
      reads this, buffers
    {
      AllValid(buffers) && Distinct(buffers)
    }

    ghost function Pieces(): seq<seq<Byte>>
      requires Valid()
      reads this, buffers
    {
      Strs(buffers)
    }

    constructor Empty()
      ensures Valid() && Pieces() == []
    {
      buffers := [];
    }

    constructor (str: seq<Byte>)
      ensures Valid() && Pieces() == [str] && forall b | b in buffers :: fresh(b)
    {
      var b := new Buffer(str);
      buffers := [b];
    }

    /** `_buffers.push_back(b)`: the list holds a copy. */
    method PushBack(b: Buffer) returns (ghost copy: Buffer)
      requires Valid() && b.Valid()
      modifies this
      ensures Valid() && Pieces() == old(Pieces()) + [b.Str()]
      ensures buffers == old(buffers) + [copy] && fresh(copy)
    {
      var pushed := new Buffer.Copy(b);
      StrsPushed(buffers, pushed);
      DistinctPushed(buffers, pushed);
      buffers := buffers + [pushed];
      copy := pushed;
    }

    /** Copies the buffers of `other`; a list is not appended to itself. */
    method Append(other: BufferList)
      requires Valid() && other.Valid() && other != this
      modifies this
      ensures Valid() && Pieces() == old(Pieces()) + other.Pieces()
      ensures other.Valid() && other.Pieces() == old(other.Pieces())
      ensures old(buffers) <= buffers
      ensures forall b | b in buffers :: b in old(buffers) || fresh(b)
    {
      var bufs := other.buffers;
      ghost var copies: set<Buffer> := {};
      ghost var mine, theirs := Pieces(), Strs(bufs);
      for i := 0 to |bufs|
        invariant Valid() && old(buffers) <= buffers
        invariant fresh(copies) && forall b | b in buffers :: b in old(buffers) || b in copies
        invariant AllValid(bufs) && Strs(bufs) == theirs
        invariant Pieces() == mine + theirs[..i]
      {
        StrsAt(bufs, i);
        OneMore(mine, theirs, i);
        ghost var copy := PushBack(bufs[i]);
        copies := copies + {copy};
      }
      assert theirs[..|bufs|] == theirs;
    }

    method AsBuffer() returns (r: Result<Buffer>)
      requires Valid()
      ensures r.Ok? <==> |buffers| <= 1
      ensures r.Ok? ==> r.value.Valid() && fresh(r.value) && r.value.Str() == Flatten(Pieces())
      ensures r.Threw? ==> r.what == NotContiguous
    {
      if |buffers| == 0 {
        var b := new Buffer.Empty();
        r := Ok(b);
      } else if |buffers| == 1 {
        var b := new Buffer.Copy(buffers[0]);
        FlattenOne(buffers[0].Str());
        assert Pieces() == [buffers[0].Str()];
        r := Ok(b);
      } else {
        r := Threw(NotContiguous);
      }
    }

    method Concatenate() returns (ret: seq<Byte>)
      requires Valid()
      ensures ret == Flatten(Pieces())
    {
      ret := [];
      for i := 0 to |buffers|
        invariant ret == Flatten(Pieces()[..i])
      {
        FlattenNext(Pieces(), i);
        StrsAt(buffers, i);
        ret := ret + buffers[i].Str();
      }
      assert Pieces()[..|buffers|] == Pieces();
    }

    method Size() returns (ret: nat)
      requires Valid()
      ensures ret == |Flatten(Pieces())|
    {
      ret := 0;
      for i := 0 to |buffers|
        invariant ret == |Flatten(Pieces()[..i])|
      {
        FlattenNext(Pieces(), i);
        StrsAt(buffers, i);
        ret := ret + |buffers[i].Str()|;
      }
      assert Pieces()[..|buffers|] == Pieces();
    }

    method RemovePrefix(size: nat) returns (r: Result<()>)
      requires Valid()
      modifies this, buffers
      ensures Valid()
      ensures forall b | b in buffers :: b in old(buffers)
      ensures r == if Drop(old(Pieces()), size).Some? then Ok(()) else Threw(OutOfRange)
      ensures Pieces() == if r.Ok? then Drop(old(Pieces()), size).value else []
    {
      var n: nat := size;
      while n > 0
        invariant Valid() && forall b | b in buffers :: b in old(buffers)
        invariant Drop(Pieces(), n) == Drop(old(Pieces()), size)
        decreases |buffers|, n
      {
        if buffers == [] {
          return Threw(OutOfRange);
        }
        if n < |buffers[0].Str()| {
          ghost var before, rest := Pieces(), Strs(buffers[1..]);
          assert buffers[0] in buffers;
          var removed := buffers[0].RemovePrefix(n);
          assert Strs(buffers[1..]) == rest == before[1..];
          n := 0;
        } else {
          n := n - |buffers[0].Str()|;
          assert Strs(buffers[1..]) == Pieces()[1..];
          buffers := buffers[1..];
        }
      }
      return Ok(());
    }
  }

  lemma FlattenNext(pieces: seq<seq<Byte>>, i: nat)
    requires i < |pieces|
    ensures Flatten(pieces[..i + 1]) == Flatten(pieces[..i]) + pieces[i]
  {
    assert pieces[..i + 1] == pieces[..i] + [pieces[i]];
    FlattenAppend(pieces[..i], [pieces[i]]);
    FlattenOne(pieces[i]);
  }

  // ---- BufferViewList ---------------------------------------------------------------------------

  class BufferViewList {
    var views: seq<seq<Byte>>

    constructor (str: seq<Byte>)
      ensures views == [str]
    {
      views := [str];
    }

    constructor FromList(list: BufferList)
      requires list.Valid()
      ensures views == list.Pieces()
    {
      var vs := [];
      for i := 0 to |list.buffers|
        invariant vs == list.Pieces()[..i]
      {
        StrsAt(list.buffers, i);
        vs := vs + [list.buffers[i].Str()];
      }
      assert list.Pieces()[..|list.buffers|] == list.Pieces();
      views := vs;
    }

    constructor Copy(other: BufferViewList)
      ensures views == other.views
    {
      views := other.views;
    }

    method RemovePrefix(size: nat) returns (r: Result<()>)
      modifies this
      ensures r == if Drop(old(views), size).Some? then Ok(()) else Threw(OutOfRange)
      ensures views == if r.Ok? then Drop(old(views), size).value else []
    {
      var n: nat := size;
      while n > 0
        invariant Drop(views, n) == Drop(old(views), size)
        decreases |views|, n
      {
        if views == [] {
          return Threw(OutOfRange);
        }
        if n < |views[0]| {
          views := [views[0][n..]] + views[1..];
          n := 0;
        } else {
          n := n - |views[0]|;
          views := views[1..];
        }
      }
      return Ok(());
    }

    method Size() returns (ret: nat)
      ensures ret == |Flatten(views)|
    {
      ret := 0;
      for i := 0 to |views|
        invariant ret == |Flatten(views[..i])|
      {
        FlattenNext(views, i);
        ret := ret + |views[i]|;
      }
      assert views[..|views|] == views;
    }

    method AsIovecs() returns (ret: seq<seq<Byte>>)
      ensures ret == views
    {
      ret := [];
      for i := 0 to |views|
        invariant ret == views[..i]
      {
        ret := ret + [views[i]];
      }
    }
  }

  /** Viewing a list and dropping from the views, or dropping from the list and viewing what is
      left: the same outcome and, view by view, the same views. */
  method ViewsFollowTheList(list: BufferList, n: nat)
    returns (r: Result<()>, s: Result<()>, iovecs: seq<seq<Byte>>)
    requires list.Valid()
    modifies list, list.buffers
    ensures list.Valid() && iovecs == list.Pieces() && r == s
    ensures r.Ok? <==> n <= |Flatten(old(list.Pieces()))|
    ensures Flatten(iovecs) == if r.Ok? then Flatten(old(list.Pieces()))[n..] else []
  {
    var views := new BufferViewList.FromList(list);
    r := views.RemovePrefix(n);
    DropDrops(list.Pieces(), n);
    s := list.RemovePrefix(n);
    iovecs := views.AsIovecs();
  }
}
