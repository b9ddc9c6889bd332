/** File descriptors (libsponge/util/file_descriptor.cc): the shared state behind duplicated
    handles, and the loop that writes a list of views through a kernel that may take less than it
    is offered. */
module Descriptors {
  import opened Bytes
  import opened Buffers

  /** What a descriptor remembers; the event loop decides by these. */
  datatype FdState = FdState(fd: nat, eof: bool, closed: bool, readCount: nat, writeCount: nat)

  /** The record that all duplicates of a FileDescriptor share. */
  class FDWrapper {
    var fd: nat
    var eof: bool
    var closed: bool
    var readCount: nat
    var writeCount: nat

    function State(): FdState
      reads this
    {
      FdState(fd, eof, closed, readCount, writeCount)
    }

    constructor (fd: nat)
      ensures State() == FdState(fd, false, false, 0, 0)
    {
      this.fd := fd;
      eof, closed := false, false;
      readCount, writeCount := 0, 0;
    }

    method Close()
      modifies this
      ensures State() == old(State()).(eof := true, closed := true)
    {
      eof, closed := true, true;
    }
  }

  /** The counts that `writev` has returned, call after call. */
  datatype Answers = NoCalls | Then(before: Answers, last: nat) {
    function Calls(): nat {
      if NoCalls? then 0 else before.Calls() + 1
    }

    function Sum(): nat {
      if NoCalls? then 0 else before.Sum() + last
    }

    /** Every answer was honest, when there were `size` bytes to write. */
    predicate AllHonest(size: nat) {
      Then? ==> before.AllHonest(size) && Honest(last, size - before.Sum())
    }

    /** These answers, after those of `earlier`. */
    function After(earlier: Answers): Answers {
      if NoCalls? then earlier else Then(before.After(earlier), last)
    }
  }

  /** A count that `write` accepts: some progress, unless there is nothing to write, and no more
      than was offered. */
  predicate Honest(count: nat, offered: int) {
    count <= offered && (offered != 0 ==> count != 0)
  }

  /** `writev`. Each call is answered with any count at all; of the bytes offered it takes as many as
      it says, or all of them if it says more. */
  class Kernel {
    var answers: Answers
    var received: seq<Byte>

    constructor ()
      ensures answers == NoCalls && received == []
    {
      answers, received := NoCalls, [];
    }

    method Writev(iovecs: seq<seq<Byte>>) returns (n: nat)
      modifies this
      ensures answers == Then(old(answers), n)
      ensures received == old(received) + Flatten(iovecs)[..Min(n, |Flatten(iovecs)|)]
    {
      n := *;
      answers := Then(answers, n);
      received := received + Flatten(iovecs)[..Min(n, |Flatten(iovecs)|)];
    }
  }

  /** The last call was the first, or all was to be written and something was left. */
  predicate NoCallTooMany(size: nat, writeAll: bool, answers: Answers) {
    answers.Then? ==> answers.before == NoCalls || (writeAll && answers.before.Sum() < size)
  }

  /** The outcome of a `write` of `size` bytes whose calls were answered so. */
  predicate Wrote(r: Result<nat>, size: nat, writeAll: bool, answers: Answers) {
    && 1 <= answers.Calls() && (answers.Calls() == 1 || answers.Calls() <= size)
    && NoCallTooMany(size, writeAll, answers)
    && (r.Ok? <==> answers.AllHonest(size))
    && (r.Ok? ==> r.value == answers.Sum() <= size && (writeAll ==> r.value == size))
    && (r.Threw? ==> Refused(r.what, size, answers))
  }

  /** Why `write` threw: the last answer, and only that, was dishonest, in the way the exception says. */
  predicate Refused(what: Exception, size: nat, answers: Answers) {
    && answers.Then? && answers.before.AllHonest(size)
    && var offered := size - answers.before.Sum();
       if answers.last == 0 then what == WroteNothing && offered != 0
       else what == WroteTooMuch && answers.last > offered
  }

  /** Where the loop of `write` stands before the next call or, once there is no `more`, at its end. */
  ghost predicate InProgress(size: nat, writeAll: bool, answers: Answers, total: nat, more: bool) {
    && (answers.Calls() <= total || (size == 0 && !more && answers.Calls() == 1))
    && total == answers.Sum() <= size
    && answers.AllHonest(size) && NoCallTooMany(size, writeAll, answers)
    && if more then answers == NoCalls || (writeAll && total < size)
       else answers != NoCalls && if writeAll then total == size else answers.Calls() == 1
  }

  lemma HonestStep(size: nat, writeAll: bool, answers: Answers, total: nat, n: nat)
    requires InProgress(size, writeAll, answers, total, true) && Honest(n, size - total)
    ensures InProgress(size, writeAll, Then(answers, n), total + n, writeAll && total + n != size)
  {
  }

  lemma DishonestStep(size: nat, writeAll: bool, answers: Answers, total: nat, n: nat)
    requires InProgress(size, writeAll, answers, total, true) && !Honest(n, size - total)
    ensures Wrote(Threw(Complaint(n)), size, writeAll, Then(answers, n))
  {
  }

  /** Any outcome of `write`, told by the last answer and the sum of those before it. */
  lemma LastAnswerDecides(r: Result<nat>, size: nat, writeAll: bool, answers: Answers)
    requires Wrote(r, size, writeAll, answers)
    ensures answers.Then? && answers.before.Sum() <= size
    ensures var offered := size - answers.before.Sum();
            r == if answers.last == 0 && offered != 0 then Threw(WroteNothing)
                 else if answers.last > offered then Threw(WroteTooMuch)
                 else Ok(answers.before.Sum() + answers.last)
    ensures answers.before.Then? ==> writeAll && answers.before.last != 0 && answers.before.Sum() < size
    ensures writeAll && r.Ok? ==> r.value == size
  {
    HonestSum(answers.before, size);
  }

  lemma HonestSum(answers: Answers, size: nat)
    requires answers.AllHonest(size)
    ensures answers.Sum() <= size
  {
  }

  lemma Finished(size: nat, writeAll: bool, answers: Answers, total: nat)
    requires InProgress(size, writeAll, answers, total, false)
    ensures Wrote(Ok(total), size, writeAll, answers)
  {
  }

  function Complaint(n: nat): Exception {
    if n == 0 then WroteNothing else WroteTooMuch
  }

  /** Beyond what it had `taken` before, the kernel has the first `total` bytes of the contents;
      `left` is what it has not. */
  ghost predicate Delivered(contents: seq<Byte>, total: nat, left: seq<Byte>, taken: seq<Byte>, received: seq<Byte>) {
    total <= |contents| && left == contents[total..] && received == taken + contents[..total]
  }

  lemma DeliversMore(contents: seq<Byte>, total: nat, left: seq<Byte>, taken: seq<Byte>, had: seq<Byte>, n: nat,
                     received: seq<Byte>)
    requires Delivered(contents, total, left, taken, had) && n <= |left| && received == had + left[..n]
    ensures Delivered(contents, total + n, left[n..], taken, received)
  {
  }

  class FileDescriptor {
    var internalFd: FDWrapper

    constructor (fd: nat)
      ensures fresh(internalFd) && internalFd.State() == FdState(fd, false, false, 0, 0)
    {
      internalFd := new FDWrapper(fd);
    }

    constructor Sharing(internalFd: FDWrapper)
      ensures this.internalFd == internalFd
    {
      this.internalFd := internalFd;
    }

    /** A duplicate shares the record: what is done through one handle is seen through all. */
    method Duplicate() returns (d: FileDescriptor)
      ensures fresh(d) && d.internalFd == internalFd
    {
      d := new FileDescriptor.Sharing(internalFd);
    }

    /** One turn of the loop of `write`: offer what is left, check the answer, drop what was taken. */
    method WriteOnce(left: BufferViewList, kernel: Kernel) returns (r: Result<nat>, written: nat)
      modifies internalFd`writeCount, kernel, left
      ensures kernel.answers == Then(old(kernel.answers), written)
      ensures r == (if written == 0 && Flatten(old(left.views)) != [] then Threw(WroteNothing)
                    else if written > |Flatten(old(left.views))| then Threw(WroteTooMuch) else Ok(written))
      ensures var offered := Flatten(old(left.views));
              if Honest(written, |offered|) then
                && r == Ok(written)
                && Flatten(left.views) == offered[written..]
                && internalFd.writeCount == old(internalFd.writeCount) + 1
              else
                && r == Threw(Complaint(written))
                && internalFd.writeCount == old(internalFd.writeCount)
      ensures var offered := Flatten(old(left.views));
              kernel.received == old(kernel.received) + offered[..Min(written, |offered|)]
    {
      var iovecs := left.AsIovecs();
      written := kernel.Writev(iovecs);
      var size := left.Size();
      if written == 0 && size != 0 {
        r := Threw(WroteNothing);
        return;
      }
      if written > size {
        r := Threw(WroteTooMuch);
        return;
      }
      internalFd.writeCount := internalFd.writeCount + 1;
      DropDrops(left.views, written);
      var removed := left.RemovePrefix(written);
      r := Ok(written);
    }

    /** The same, seen from the whole of what is written. */
    method WriteMore(left: BufferViewList, kernel: Kernel, ghost contents: seq<Byte>, ghost total: nat,
                     ghost taken: seq<Byte>) returns (r: Result<nat>, written: nat)
      requires Delivered(contents, total, Flatten(left.views), taken, kernel.received)
      modifies internalFd`writeCount, kernel, left
      ensures kernel.answers == Then(old(kernel.answers), written)
      ensures if Honest(written, |contents| - total) then
                && r == Ok(written)
                && Delivered(contents, total + written, Flatten(left.views), taken, kernel.received)
                && internalFd.writeCount == old(internalFd.writeCount) + 1
              else
                && r == Threw(Complaint(written))
                && kernel.received == taken + contents[..Min(total + written, |contents|)]
                && internalFd.writeCount == old(internalFd.writeCount)
    {
      ghost var offered, had := Flatten(left.views), kernel.received;
      r, written := WriteOnce(left, kernel);
      DeliversMore(contents, total, offered, taken, had, Min(written, |offered|), kernel.received);
    }

    /** Writes `buffer`, all of it if `writeAll`. It fails exactly when an answer of the kernel is
        dishonest. In any case the kernel has received, in order and once each, the bytes it said it
        took, or all of them where it says more. Every answer that was accepted counts as one write. */
    method Write(buffer: BufferViewList, writeAll: bool, kernel: Kernel)
      returns (r: Result<nat>, ghost answers: Answers)
      modifies internalFd`writeCount, kernel
      ensures kernel.answers == answers.After(old(kernel.answers))
      ensures Wrote(r, |Flatten(buffer.views)|, writeAll, answers)
      ensures var contents := Flatten(buffer.views);
              kernel.received == old(kernel.received) + contents[..Min(answers.Sum(), |contents|)]
      ensures r.Ok? ==> internalFd.writeCount == old(internalFd.writeCount) + answers.Calls()
      ensures r.Threw? ==> internalFd.writeCount == old(internalFd.writeCount) + answers.Calls() - 1
      ensures buffer.views == old(buffer.views)
    {
      var left := new BufferViewList.Copy(buffer);
      ghost var contents := Flatten(buffer.views);
      ghost var before, taken := kernel.answers, kernel.received;
      var total: nat := 0;
      var more := true;
      answers := NoCalls;
      while more
        invariant InProgress(|contents|, writeAll, answers, total, more)
        invariant kernel.answers == answers.After(before)
        invariant Delivered(contents, total, Flatten(left.views), taken, kernel.received)
        invariant internalFd.writeCount == old(internalFd.writeCount) + answers.Calls()
        decreases more, |contents| - total
      {
        var turn, written := WriteMore(left, kernel, contents, total, taken);
        if turn.Threw? {
          DishonestStep(|contents|, writeAll, answers, total, written);
          answers := Then(answers, written);
          r := turn;
          return;
        }
        HonestStep(|contents|, writeAll, answers, total, written);
        answers, total := Then(answers, written), total + written;
        var size := left.Size();
        more := writeAll && size != 0;
      }
      Finished(|contents|, writeAll, answers, total);
      r := Ok(total);
    }
  }
}
