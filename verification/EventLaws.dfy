/** What the calls of an event loop amount to: the accounts of one call, and the life of a rule over
    any number of calls. The loop itself keeps its trace sound and orderly (Events.EventLoop.Valid),
    so what is proved of such traces holds of every run. */
module EventLaws {
  import opened Bytes
  import opened Events
  import Buffers
  import Descriptors

  // ---- One call ---------------------------------------------------------------------------------

  /** `a` can be had from `b` by leaving elements out. */
  ghost predicate Subsequence<T>(a: seq<T>, b: seq<T>)
    decreases |b|
  {
    a == []
    || (b != [] && Subsequence(a, b[..|b| - 1]))
    || (b != [] && a[|a| - 1] == b[|b| - 1] && Subsequence(a[..|a| - 1], b[..|b| - 1]))
  }

  lemma SubsequenceMore<T>(a: seq<T>, b: seq<T>, x: T)
    requires Subsequence(a, b)
    ensures Subsequence(a, b + [x]) && Subsequence(a + [x], b + [x])
  {
    assert (b + [x])[..|b|] == b;
    assert (a + [x])[..|a|] == a;
  }

  /** What a pass leaves is in the order it was in, and so is what it cancels and what it calls. */
  lemma {:induction false} OrderIsKept(pass: Trace)
    ensures Subsequence(pass.Survivors(), pass.Rules())
    ensures Subsequence(pass.Cancelled(), pass.Rules())
    ensures Subsequence(pass.Called(), pass.Survivors())
  {
    if pass.Then? {
      OrderIsKept(pass.past);
      if pass.event.Visited? {
        SubsequenceMore(pass.past.Survivors(), pass.past.Rules(), pass.event.rule);
        SubsequenceMore(pass.past.Cancelled(), pass.past.Rules(), pass.event.rule);
        SubsequenceMore(pass.past.Called(), pass.past.Survivors(), pass.event.rule);
      }
    }
  }

  /** The rules that, when their turn came, were not at eof for reading and not closed. */
  function NotDoomed(pass: Trace): seq<Rule> {
    if pass.Start? then []
    else if pass.event.Visited? && !Doomed(pass.past.world, pass.event.rule)
    then NotDoomed(pass.past) + [pass.event.rule]
    else NotDoomed(pass.past)
  }

  function OnesDoomed(pass: Trace): seq<Rule> {
    if pass.Start? then []
    else if pass.event.Visited? && Doomed(pass.past.world, pass.event.rule)
    then OnesDoomed(pass.past) + [pass.event.rule]
    else OnesDoomed(pass.past)
  }

  /** The first pass cancels those and no others, and calls no callback. */
  lemma {:induction false} FirstPassCancelsTheDoomed(pass: Trace)
    requires pass.FirstPass() && pass.Sound()
    ensures pass.Survivors() == NotDoomed(pass) && pass.Cancelled() == OnesDoomed(pass)
    ensures pass.Called() == []
  {
    if pass.Then? {
      FirstPassCancelsTheDoomed(pass.past);
    }
  }

  /** The i-th pollfd is that of the i-th rule that stays: its descriptor, and the event that its
      direction waits for, or none. */
  lemma {:induction false} PollFdsBelongToRules(pass: Trace, i: nat)
    requires pass.FirstPass() && pass.Sound() && i < |pass.Survivors()|
    ensures |pass.Asked()| == |pass.Survivors()|
    ensures var r, asked := pass.Survivors()[i], pass.Asked()[i];
            && (asked.events == (if r.direction == In then {PollIn} else {PollOut}) || asked.events == {})
            && (r.fd < |pass.Origin().fds| ==> r.fd < |pass.world.fds| && asked.fd == pass.world.fds[r.fd].fd)
  {
    AsManyPollFds(pass);
    AsManyPollFds(pass.past);
    OriginAdvances(pass.past);
    if i < |pass.past.Survivors()| {
      PollFdsBelongToRules(pass.past, i);
    }
  }

  lemma {:induction false} OriginAdvances(t: Trace)
    requires t.Sound()
    ensures Advances(t.Origin(), t.world)
  {
    if t.Then? {
      OriginAdvances(t.past);
    }
  }

  datatype Choice = TheReady | TheDefunct | TheOthers

  predicate Picks(c: Choice, asked: PollFd, got: set<Flag>) {
    var hungUp := PollHup in got && asked.events != {} && asked.events * got == {};
    match c
    case TheReady => asked.events * got != {}
    case TheDefunct => hungUp
    case TheOthers => !hungUp
  }

  /** The rules that a choice picks by their poll results, in order. */
  function Chosen(rules: seq<Rule>, asked: seq<PollFd>, revents: map<nat, set<Flag>>, c: Choice): seq<Rule>
    requires |rules| == |asked|
  {
    if rules == [] then []
    else
      var n := |rules| - 1;
      var before := Chosen(rules[..n], asked[..n], revents, c);
      if Picks(c, asked[n], Revents(revents, n)) then before + [rules[n]] else before
  }

  lemma ChosenNext(rules: seq<Rule>, asked: seq<PollFd>, revents: map<nat, set<Flag>>, c: Choice, r: Rule, a: PollFd)
    requires |rules| == |asked|
    ensures Chosen(rules + [r], asked + [a], revents, c)
         == if Picks(c, a, Revents(revents, |rules|)) then Chosen(rules, asked, revents, c) + [r]
            else Chosen(rules, asked, revents, c)
  {
    var n := |rules|;
    assert (rules + [r])[..n] == rules && (asked + [a])[..n] == asked;
  }

  /** Those rules of a pass to which it did what the choice is about. */
  function Treated(pass: Trace, c: Choice): seq<Rule> {
    match c
    case TheReady => pass.Called()
    case TheDefunct => pass.Cancelled()
    case TheOthers => pass.Survivors()
  }

  lemma TreatedNext(pass: Trace, revents: map<nat, set<Flag>>, c: Choice)
    requires pass.SecondPass(revents) && pass.Sound() && pass.NeverThrew() && pass.Then?
    ensures var past, r, asked := pass.past, pass.event.rule, pass.event.fate.asked;
            && pass.Rules() == past.Rules() + [r] && pass.Asked() == past.Asked() + [asked]
            && Treated(pass, c) == if Picks(c, asked, Revents(revents, |past.Rules()|))
                                   then Treated(past, c) + [r] else Treated(past, c)
  {
  }

  lemma {:induction false} AsManyAnswered(pass: Trace, revents: map<nat, set<Flag>>)
    requires pass.SecondPass(revents)
    ensures |pass.Rules()| == |pass.Asked()|
  {
    if pass.Then? {
      AsManyAnswered(pass.past, revents);
    }
  }

  /** The second pass, when nothing throws: each rule is treated by the poll result of the pollfd
      that was made of it, and by nothing else. */
  lemma {:induction false} SecondPassFollowsPoll(pass: Trace, revents: map<nat, set<Flag>>, c: Choice)
    requires pass.SecondPass(revents) && pass.Sound() && pass.NeverThrew()
    ensures |pass.Rules()| == |pass.Asked()|
    ensures Treated(pass, c) == Chosen(pass.Rules(), pass.Asked(), revents, c)
  {
    AsManyAnswered(pass, revents);
    if pass.Then? {
      var past := pass.past;
      AsManyAnswered(past, revents);
      SecondPassFollowsPoll(past, revents, c);
      TreatedNext(pass, revents, c);
      ChosenNext(past.Rules(), past.Asked(), revents, c, pass.event.rule, pass.event.fate.asked);
    }
  }

  lemma {:induction false} SubsequenceTransitive<T>(a: seq<T>, b: seq<T>, c: seq<T>)
    requires Subsequence(a, b) && Subsequence(b, c)
    ensures Subsequence(a, c)
    decreases |c|
  {
    if a != [] && b != [] {
      var b', c' := b[..|b| - 1], c[..|c| - 1];
      if Subsequence(b, c') {
        SubsequenceTransitive(a, b, c');
      } else if Subsequence(a, b') {
        SubsequenceTransitive(a, b', c');
      } else {
        SubsequenceTransitive(a[..|a| - 1], b', c');
      }
    }
  }

  lemma SplitAt(left: seq<Rule>, n: nat, survivors: seq<Rule>)
    requires n <= |left|
    ensures multiset(left) == multiset(left[..n]) + multiset(left[n..])
    ensures multiset(survivors + left[n..]) == multiset(survivors) + multiset(left[n..])
  {
    assert left == left[..n] + left[n..];
  }

  /** The accounts of a call, however it came out: whatever is not in the list any more was
      cancelled, once, and nothing else was. */
  lemma NothingLost(outcome: Outcome, poll: Option<PollOutcome>, before: seq<Rule>, first: Trace, second: Trace,
                    after: seq<Rule>)
    requires Waited(outcome, poll, before, first, second, after)
    ensures multiset(before) == multiset(after) + multiset(first.Cancelled()) + multiset(second.Cancelled())
  {
    SurviveOrCancelled(first);
    SurviveOrCancelled(second);
    WhatIsLeft(outcome, poll, before, first, second, after);
    Balance(multiset(before), multiset(first.Survivors()), multiset(first.Cancelled()), multiset(second.Rules()),
            multiset(second.Survivors()), multiset(second.Cancelled()), multiset(after));
  }

  lemma WhatIsLeft(outcome: Outcome, poll: Option<PollOutcome>, before: seq<Rule>, first: Trace, second: Trace,
                   after: seq<Rule>)
    requires Waited(outcome, poll, before, first, second, after)
    ensures multiset(first.Survivors()) + multiset(second.Survivors()) == multiset(second.Rules()) + multiset(after)
  {
    if outcome == Success {
      WholePass(poll.value.revents, first.Survivors(), first.Asked(), second, after);
    } else if outcome.Thrown? {
      BrokenPass(outcome, poll.value.revents, first.Survivors(), first.Asked(), second, after);
    } else {
      assert second.Rules() == second.Survivors() == [];
    }
  }

  lemma BrokenPass(outcome: Outcome, revents: map<nat, set<Flag>>, rules: seq<Rule>, asked: seq<PollFd>,
                   second: Trace, after: seq<Rule>)
    requires outcome.Thrown? && Dispatched(outcome, revents, rules, asked, second, after)
    ensures multiset(rules) + multiset(second.Survivors()) == multiset(second.Rules()) + multiset(after)
  {
    SplitAt(rules, |second.Rules()|, second.Survivors());
  }

  lemma Balance(before: multiset<Rule>, left: multiset<Rule>, doomed: multiset<Rule>, visited: multiset<Rule>,
                kept: multiset<Rule>, defunct: multiset<Rule>, after: multiset<Rule>)
    requires before == left + doomed && visited == kept + defunct && left + kept == visited + after
    ensures before == after + doomed + defunct
  {
    forall r
      ensures before[r] == (after + doomed + defunct)[r]
    {
      assert (left + kept)[r] == (visited + after)[r];
    }
  }

  lemma WholePass(revents: map<nat, set<Flag>>, rules: seq<Rule>, asked: seq<PollFd>, second: Trace, after: seq<Rule>)
    requires Dispatched(Success, revents, rules, asked, second, after)
    ensures second.Rules() == rules && second.Asked() == asked && after == second.Survivors()
    ensures second.SecondPass(revents) && second.NeverThrew()
  {
    assert rules[..|rules|] == rules && asked[..|asked|] == asked;
  }

  lemma DispatchAccounts(revents: map<nat, set<Flag>>, rules: seq<Rule>, asked: seq<PollFd>, second: Trace,
                         after: seq<Rule>)
    requires second.SecondPass(revents) && second.Sound() && second.NeverThrew()
    requires second.Rules() == rules && second.Asked() == asked && second.Survivors() == after
    ensures |rules| == |asked|
    ensures second.Cancelled() == Chosen(rules, asked, revents, TheDefunct)
    ensures after == Chosen(rules, asked, revents, TheOthers)
    ensures second.Called() == Chosen(rules, asked, revents, TheReady)
    ensures Subsequence(second.Called(), after) && Subsequence(after, rules)
  {
    SecondPassFollowsPoll(second, revents, TheReady);
    SecondPassFollowsPoll(second, revents, TheDefunct);
    SecondPassFollowsPoll(second, revents, TheOthers);
    OrderIsKept(second);
  }

  /** The accounts of a call that did not throw. The list keeps its order; the rules cancelled are
      those found doomed in the first pass and those found defunct in the second; the callbacks that
      ran are those of the polled rules that were ready, once each and in order. */
  lemma CallAccounts(outcome: Outcome, poll: Option<PollOutcome>, before: seq<Rule>, first: Trace, second: Trace,
                     after: seq<Rule>)
    requires Waited(outcome, poll, before, first, second, after) && !outcome.Thrown?
    ensures Subsequence(after, before)
    ensures first.Cancelled() == OnesDoomed(first) && first.Survivors() == NotDoomed(first) && first.Called() == []
    ensures if outcome == Success then
              && |first.Survivors()| == |first.Asked()| && (poll.value.Returned? || poll.value.OtherError?)
              && second.Cancelled() == Chosen(first.Survivors(), first.Asked(), poll.value.revents, TheDefunct)
              && after == Chosen(first.Survivors(), first.Asked(), poll.value.revents, TheOthers)
              && second.Called() == Chosen(first.Survivors(), first.Asked(), poll.value.revents, TheReady)
              && Subsequence(second.Called(), after)
            else
              after == first.Survivors() && second.Cancelled() == [] && second.Called() == []
  {
    FirstPassCancelsTheDoomed(first);
    OrderIsKept(first);
    if outcome == Success {
      WholePass(poll.value.revents, first.Survivors(), first.Asked(), second, after);
      DispatchAccounts(poll.value.revents, first.Survivors(), first.Asked(), second, after);
      SubsequenceTransitive(after, first.Survivors(), before);
    }
  }

  lemma {:induction false} SomeChosenIff(rules: seq<Rule>, asked: seq<PollFd>, revents: map<nat, set<Flag>>, c: Choice)
    requires |rules| == |asked|
    ensures Chosen(rules, asked, revents, c) != []
            <==> exists i | 0 <= i < |asked| :: Picks(c, asked[i], Revents(revents, i))
    decreases |rules|
  {
    if rules != [] {
      var n := |rules| - 1;
      SomeChosenIff(rules[..n], asked[..n], revents, c);
      assert forall i | 0 <= i < n :: asked[..n][i] == asked[i];
      if i :| 0 <= i < n && Picks(c, asked[i], Revents(revents, i)) {
        assert Picks(c, asked[..n][i], Revents(revents, i));
      }
    }
  }

  lemma SomeReadyIff(rules: seq<Rule>, asked: seq<PollFd>, revents: map<nat, set<Flag>>)
    requires |rules| == |asked|
    ensures Chosen(rules, asked, revents, TheReady) != []
            <==> exists i :: 0 <= i < |asked| && i in revents && asked[i].events * revents[i] != {}
  {
    SomeChosenIff(rules, asked, revents, TheReady);
    if i :| 0 <= i < |asked| && Picks(TheReady, asked[i], Revents(revents, i)) {
      assert i in revents && asked[i].events * revents[i] != {};
    }
    if i :| 0 <= i < |asked| && i in revents && asked[i].events * revents[i] != {} {
      assert Picks(TheReady, asked[i], Revents(revents, i));
    }
  }

  /** "Success" says that a rule was triggered; it is true exactly if some poll result holds an event
      that was asked for. */
  lemma SuccessTriggersIff(poll: Option<PollOutcome>, before: seq<Rule>, first: Trace, second: Trace,
                           after: seq<Rule>)
    requires Waited(Success, poll, before, first, second, after)
    ensures poll.Some? && (poll.value.Returned? || poll.value.OtherError?)
    ensures second.Called() != []
            <==> exists i :: && 0 <= i < |first.Asked()| && i in poll.value.revents
                             && first.Asked()[i].events * poll.value.revents[i] != {}
  {
    CallAccounts(Success, poll, before, first, second, after);
    SomeReadyIff(first.Survivors(), first.Asked(), poll.value.revents);
  }

  lemma OneVisited(w: World, r: Rule, f: Fate, v: World)
    requires !f.Cancels()
    ensures var t := Then(Start(w), Visited(r, f), v);
            t.Rules() == [r] && t.Survivors() == [r] && t.Asked() == [f.asked] && (!f.Served? ==> t.Called() == [])
  {
    var none, nothing: seq<PollFd> := Start(w).Rules(), Start(w).Asked();
    assert none + [r] == [r] && nothing + [f.asked] == [f.asked];
  }

  const NO_REVENTS: map<nat, set<Flag>> := map[]

  /** And it need not be true: a poll that fails otherwise than by a signal is passed over. */
  lemma SuccessWithoutTrigger(w: World, r: Rule)
    requires !Doomed(w, r)
    ensures var asked, failure := PollFd(FdOf(w, r).fd, Wanted(r.direction)), OtherError(NO_REVENTS);
            var polled := w.(log := Ran(w.log, Interest(r, true)));
            var waited := AfterPoll(polled, [asked], failure);
            var first := Then(Start(w), Visited(r, Polled(asked)), polled);
            var second := Then(Start(waited), Visited(r, NotReady(asked, {})), waited);
            Waited(Success, Some(failure), [r], first, second, [r]) && second.Called() == []
  {
    var asked, failure := PollFd(FdOf(w, r).fd, Wanted(r.direction)), OtherError(NO_REVENTS);
    var polled := w.(log := Ran(w.log, Interest(r, true)));
    var waited := AfterPoll(polled, [asked], failure);
    var first := Then(Start(w), Visited(r, Polled(asked)), polled);
    var second := Then(Start(waited), Visited(r, NotReady(asked, {})), waited);
    OneVisited(w, r, Polled(asked), polled);
    OneVisited(waited, r, NotReady(asked, {}), waited);
    assert Start(w).Sound() && Start(waited).Sound() && Start(waited).NeverThrew();
    assert Start(waited).SecondPass(NO_REVENTS) && Revents(NO_REVENTS, 0) == {};
    assert second.Origin() == Start(waited).Origin();
    assert [r][..1] == [r] && [asked][..1] == [asked] && [r][1..] == [];
  }

  // ---- When a call throws -----------------------------------------------------------------------

  predicate HasResults(poll: Option<PollOutcome>) {
    poll.Some? && (poll.value.Returned? || poll.value.OtherError?)
  }

  /** The poll reported an error, or a descriptor that is not open, for the `i`-th pollfd. */
  predicate ErrorAt(revents: map<nat, set<Flag>>, i: nat) {
    i in revents && (PollErr in revents[i] || PollNval in revents[i])
  }

  lemma {:induction false} NoneFailed(pass: Trace, revents: map<nat, set<Flag>>, i: nat)
    requires pass.SecondPass(revents) && pass.Sound() && pass.NeverThrew() && i < |pass.Rules()|
    ensures !ErrorAt(revents, i)
  {
    if i < |pass.past.Rules()| {
      NoneFailed(pass.past, revents, i);
    }
  }

  /** An exception comes from the last rule visited, and of no rule before it did the poll report an
      error; what it is, its own poll result decides. */
  lemma WhereItThrew(outcome: Outcome, poll: Option<PollOutcome>, before: seq<Rule>, first: Trace, second: Trace,
                     after: seq<Rule>) returns (n: nat)
    requires Waited(outcome, poll, before, first, second, after) && outcome.Thrown?
    ensures HasResults(poll) && n < |first.Asked()| == |first.Survivors()|
    ensures second.Rules() == first.Survivors()[..n + 1]
    ensures forall i: nat | i < n :: !ErrorAt(poll.value.revents, i)
    ensures if ErrorAt(poll.value.revents, n) then outcome == Thrown(ErrorOnDescriptor)
            else outcome == Thrown(BusyWait) && AskedAgain(second)
                 && n in poll.value.revents && first.Asked()[n].events * poll.value.revents[n] != {}
  {
    var revents, past := poll.value.revents, second.past;
    AsManyAnswered(second, revents);
    AsManyAnswered(past, revents);
    n := |past.Rules()|;
    forall i: nat | i < n
      ensures !ErrorAt(revents, i)
    {
      NoneFailed(past, revents, i);
    }
    assert second.Asked() == past.Asked() + [second.event.fate.asked];
    assert first.Asked()[..n + 1][n] == first.Asked()[n];
  }

  /** Unless a busy wait stops it first, a call throws for an error exactly if the poll reported one
      on some rule: POLLERR or POLLNVAL. A failure of `poll` itself is no error here. */
  lemma ErrorThrownIff(outcome: Outcome, poll: Option<PollOutcome>, before: seq<Rule>, first: Trace, second: Trace,
                       after: seq<Rule>)
    requires Waited(outcome, poll, before, first, second, after) && outcome != Thrown(BusyWait)
    ensures outcome == Thrown(ErrorOnDescriptor)
            <==> HasResults(poll)
                 && exists i: nat :: && i < |first.Asked()| && i in poll.value.revents
                                     && (PollErr in poll.value.revents[i] || PollNval in poll.value.revents[i])
  {
    if outcome.Thrown? {
      var n := WhereItThrew(outcome, poll, before, first, second, after);
      assert ErrorAt(poll.value.revents, n);
    } else if outcome == Success {
      var revents := poll.value.revents;
      WholePass(revents, first.Survivors(), first.Asked(), second, after);
      forall i: nat | i < |first.Asked()| && i in revents
        ensures PollErr !in revents[i] && PollNval !in revents[i]
      {
        NoneFailed(second, revents, i);
      }
    }
  }

  /** The last visit called the rule back and found it interested still. */
  predicate AskedAgain(pass: Trace) {
    pass.Then? && pass.event.Visited? && pass.event.fate.Served? && pass.event.fate.again == Some(true)
  }

  /** And it throws for a busy wait exactly if the last visit asked a rule again and found it
      interested: the callback of this rule, ready as it was, left the counter alone that counts its
      direction, the reads for In and the writes for Out. */
  lemma BusyWaitThrownIff(outcome: Outcome, poll: Option<PollOutcome>, before: seq<Rule>, first: Trace,
                          second: Trace, after: seq<Rule>)
    requires Waited(outcome, poll, before, first, second, after)
    ensures outcome == Thrown(BusyWait) <==> AskedAgain(second)
    ensures outcome == Thrown(BusyWait) ==>
              var f, r, w := second.event.fate, second.event.rule, second.past.world;
              && f.asked.events * f.got != {}
              && second.world.log == Ran(Ran(w.log, Callback(r)), Interest(r, true))
              && (r.fd < |w.fds| ==>
                    && r.fd < |f.returned.fds|
                    && (r.direction == In ==> f.returned.fds[r.fd].readCount == w.fds[r.fd].readCount)
                    && (r.direction == Out ==> f.returned.fds[r.fd].writeCount == w.fds[r.fd].writeCount))
  {
    if outcome.Thrown? {
      var n := WhereItThrew(outcome, poll, before, first, second, after);
      if AskedAgain(second) {
        assert !second.event.fate.PollFailed?;
      }
    } else if outcome == Success {
      WholePass(poll.value.revents, first.Survivors(), first.Asked(), second, after);
      assert second.NeverThrew() && !second.ThrewAtEnd();
    }
  }

  // ---- One visit, in fields and flags -------------------------------------------------------------

  /** The first loop: what is cancelled, what is polled for, and what is called for that. */
  lemma FirstVisit(r: Rule, f: Fate, w: World, v: World)
    requires Justified(r, f, w, v) && (f.AtEof? || f.Closed? || f.Polled?) && r.fd < |w.fds|
    ensures var fd := w.fds[r.fd];
            if (r.direction == In && fd.eof) || fd.closed then
              !f.Polled? && v.log == Ran(w.log, Cancel(r))
            else
              && f.Polled? && f.asked.fd == fd.fd
              && v.log == Ran(w.log, Interest(r, f.asked.events != {}))
              && (f.asked.events == {} || f.asked.events == if r.direction == In then {PollIn} else {PollOut})
  {
    assert FdAdvances(w.fds[r.fd], v.fds[r.fd]);
  }

  /** The second loop: an error or a descriptor that is not open comes first, then an event that was
      asked for, even together with a hangup, and then the hangup. */
  lemma SecondVisit(r: Rule, f: Fate, w: World, v: World)
    requires Justified(r, f, w, v) && (f.PollFailed? || f.HungUp? || f.NotReady? || f.Served?)
    ensures var events, got := f.asked.events, f.got;
            if PollErr in got || PollNval in got then f.PollFailed? && v == w
            else if events * got != {} then f.Served? && f.returned.log == Ran(w.log, Callback(r))
            else if PollHup in got && events != {} then f.HungUp? && v.log == Ran(w.log, Cancel(r))
            else f.NotReady? && v == w
  {
  }

  /** After a callback, a rule is asked again exactly if its callback did not serve it: the reads of
      its descriptor are as many as before, or the writes for Out. */
  lemma ServedByItsCounter(r: Rule, f: Fate, w: World, v: World)
    requires Justified(r, f, w, v) && f.Served? && r.fd < |w.fds|
    ensures r.fd < |f.returned.fds|
    ensures r.direction == In ==> (f.again == None <==> w.fds[r.fd].readCount < f.returned.fds[r.fd].readCount)
    ensures r.direction == Out ==> (f.again == None <==> w.fds[r.fd].writeCount < f.returned.fds[r.fd].writeCount)
    ensures f.again == None ==> v == f.returned
    ensures f.again.Some? ==> v.log == Ran(f.returned.log, Interest(r, f.again.value))
  {
    assert FdAdvances(w.fds[r.fd], f.returned.fds[r.fd]);
  }

  lemma {:induction false} InterestedIff(pass: Trace)
    requires pass.FirstPass() && pass.Sound()
    ensures pass.Interested() <==> exists asked | asked in pass.Asked() :: asked.events != {}
  {
    if pass.Then? {
      InterestedIff(pass.past);
      if pass.event.fate.Polled? {
        var asked := pass.event.fate.asked;
        assert asked in pass.Asked();
        assert forall a | a in pass.Asked() :: a in pass.past.Asked() || a == asked;
        assert forall a | a in pass.past.Asked() :: a in pass.Asked();
      }
    }
  }

  /** Whether a call polls, and what it returns when it does not come to the second loop. */
  lemma OutcomeFollowsPoll(outcome: Outcome, poll: Option<PollOutcome>, before: seq<Rule>, first: Trace,
                           second: Trace, after: seq<Rule>)
    requires Waited(outcome, poll, before, first, second, after)
    ensures poll.Some? <==> exists asked | asked in first.Asked() :: asked.events != {}
    ensures second.Origin().log == if poll == None then first.world.log
                                   else Ran(first.world.log, Poll(first.Asked(), poll.value))
    ensures outcome == Exit <==> poll == None || poll == Some(Interrupted)
    ensures outcome == Timeout <==> poll == Some(TimedOut)
    ensures outcome == Exit || outcome == Timeout ==> after == first.Survivors() && second.world == second.Origin()
  {
    InterestedIff(first);
  }

  // ---- What really ran --------------------------------------------------------------------------

  /** How often a call is in the log. */
  function Times(log: Log, what: Invocation): nat {
    if log == Silence then 0 else Times(log.before, what) + if log.what == what then 1 else 0
  }

  lemma OneVisit(t: Trace, r: Rule)
    requires t.Sound() && t.Then? && t.event.Visited?
    ensures Times(t.world.log, Cancel(r))
         == Times(t.past.world.log, Cancel(r)) + if t.event.fate.Cancels() && t.event.rule == r then 1 else 0
    ensures Times(t.world.log, Callback(r))
         == Times(t.past.world.log, Callback(r)) + if t.event.fate.Served? && t.event.rule == r then 1 else 0
  {
    if t.event.fate.Served? {
      var returned := t.event.fate.returned.log;
      assert Times(returned, Cancel(r)) == Times(t.past.world.log, Cancel(r));
      assert Times(returned, Callback(r))
          == Times(t.past.world.log, Callback(r)) + if t.event.rule == r then 1 else 0;
    }
  }

  /** The log has one run of cancel for every cancellation in the trace. */
  lemma {:induction false} LogTellsCancels(t: Trace, r: Rule)
    requires t.Sound()
    ensures Times(t.world.log, Cancel(r)) == Times(t.Origin().log, Cancel(r)) + multiset(t.Cancelled())[r]
  {
    if t.Then? {
      LogTellsCancels(t.past, r);
      if t.event.Visited? {
        OneVisit(t, r);
        Pushed(t.past.Cancelled(), t.event.rule);
      }
    }
  }

  /** And one of the callback for every rule called. */
  lemma {:induction false} LogTellsCalls(t: Trace, r: Rule)
    requires t.Sound()
    ensures Times(t.world.log, Callback(r)) == Times(t.Origin().log, Callback(r)) + multiset(t.Called())[r]
  {
    if t.Then? {
      LogTellsCalls(t.past, r);
      if t.event.Visited? {
        OneVisit(t, r);
        Pushed(t.past.Called(), t.event.rule);
      }
    }
  }

  /** The rules whose callbacks are in the log, in order. */
  function CallbacksIn(log: Log): seq<Rule> {
    if log == Silence then []
    else if log.what.Callback? then CallbacksIn(log.before) + [log.what.rule] else CallbacksIn(log.before)
  }

  lemma OneVisitCalls(t: Trace)
    requires t.Sound() && t.Then?
    ensures CallbacksIn(t.world.log)
         == if t.event.Visited? && t.event.fate.Served? then CallbacksIn(t.past.world.log) + [t.event.rule]
            else CallbacksIn(t.past.world.log)
  {
    if t.event.Visited? && t.event.fate.Served? {
      assert CallbacksIn(t.event.fate.returned.log) == CallbacksIn(t.past.world.log) + [t.event.rule];
    }
  }

  lemma {:induction false} LogKeepsOrder(t: Trace)
    requires t.Sound()
    ensures CallbacksIn(t.world.log) == CallbacksIn(t.Origin().log) + t.Called()
  {
    if t.Then? {
      OneVisitCalls(t);
      LogKeepsOrder(t.past);
      if t.event.Visited? && t.event.fate.Served? {
        Associate(CallbacksIn(t.Origin().log), t.past.Called(), [t.event.rule]);
      }
    }
  }

  /** In a call, the callbacks that run are, once each and in list order, those of the second pass:
      of all the ready rules when nothing throws, and never of others. */
  lemma CallbacksOfCall(outcome: Outcome, poll: Option<PollOutcome>, before: seq<Rule>, first: Trace,
                        second: Trace, after: seq<Rule>)
    requires Waited(outcome, poll, before, first, second, after)
    ensures CallbacksIn(second.world.log) == CallbacksIn(first.Origin().log) + second.Called()
    ensures Subsequence(second.Called(), after)
    ensures outcome == Success ==>
              && |first.Survivors()| == |first.Asked()| && HasResults(poll)
              && second.Called() == Chosen(first.Survivors(), first.Asked(), poll.value.revents, TheReady)
    ensures !outcome.Thrown? && outcome != Success ==> second.Called() == []
  {
    FirstPassCancelsTheDoomed(first);
    LogKeepsOrder(first);
    LogKeepsOrder(second);
    NoneBefore(CallbacksIn(first.Origin().log));
    OrderIsKept(second);
    if outcome.Thrown? {
      SubsequenceLonger(second.Called(), second.Survivors(), first.Survivors()[|second.Rules()|..]);
    } else {
      CallAccounts(outcome, poll, before, first, second, after);
    }
  }

  lemma NoneBefore(rules: seq<Rule>)
    ensures rules + [] == rules
  {
  }

  lemma {:induction false} SubsequenceLonger<T>(a: seq<T>, b: seq<T>, more: seq<T>)
    requires Subsequence(a, b)
    ensures Subsequence(a, b + more)
    decreases |more|
  {
    if more == [] {
      assert b + more == b;
    } else {
      var n := |more| - 1;
      SubsequenceLonger(a, b, more[..n]);
      SubsequenceMore(a, b + more[..n], more[n]);
      assert b + more == b + more[..n] + [more[n]];
    }
  }

  /** In a call, cancel runs exactly once for each removed rule, and for no other. */
  lemma CancelRunsOncePerRemoval(outcome: Outcome, poll: Option<PollOutcome>, before: seq<Rule>, first: Trace,
                                 second: Trace, after: seq<Rule>, r: Rule)
    requires Waited(outcome, poll, before, first, second, after)
    ensures Times(second.world.log, Cancel(r)) + multiset(after)[r]
         == Times(first.Origin().log, Cancel(r)) + multiset(before)[r]
  {
    LogTellsCancels(first, r);
    LogTellsCancels(second, r);
    NothingLost(outcome, poll, before, first, second, after);
  }

  // ---- What descriptors do ----------------------------------------------------------------------

  /** Closing a descriptor is among the things the model lets the program do. */
  method CloseAdvances(fd: Descriptors.FDWrapper)
    modifies fd
    ensures FdAdvances(old(fd.State()), fd.State())
  {
    fd.Close();
  }

  /** So is writing to it; and a write that returns is counted, so that a callback that made one is
      no busy wait. */
  method WriteAdvances(fd: Descriptors.FileDescriptor, buffer: Buffers.BufferViewList, writeAll: bool,
                       kernel: Descriptors.Kernel)
    returns (r: Result<nat>)
    modifies fd.internalFd`writeCount, kernel
    ensures FdAdvances(old(fd.internalFd.State()), fd.internalFd.State())
    ensures r.Ok? ==> old(fd.internalFd.State().writeCount) < fd.internalFd.State().writeCount
  {
    ghost var answers;
    r, answers := fd.Write(buffer, writeAll, kernel);
  }

  /** What one descriptor goes through, the world may; and descriptors may be opened. */
  lemma OneAdvances(w: World, h: nat, s: FdState)
    ensures h < |w.fds| && FdAdvances(w.fds[h], s) ==> Advances(w, w.(fds := w.fds[h := s]))
    ensures Advances(w, w.(fds := w.fds + [s]))
  {
  }

  /** Reading: counted, and at eof if the end was met. */
  lemma ReadAdvances(w: World, h: nat, atEnd: bool)
    requires h < |w.fds|
    ensures var s := w.fds[h];
            Advances(w, w.(fds := w.fds[h := s.(eof := s.eof || atEnd, readCount := s.readCount + 1)]))
  {
  }

  // ---- The life of a rule -----------------------------------------------------------------------

  /** From the first event on, an empty list of rules. */
  predicate FromEmpty(t: Trace) {
    t.Sound() && Orderly(t)
  }

  /** The rules ever added: live or cancelled. */
  function Known(t: Trace): multiset<Rule> {
    Live(t) + multiset(t.Cancelled())
  }

  lemma KnownStays(t: Trace)
    requires Orderly(t) && t.Then? && t.event.Visited?
    ensures Known(t) == Known(t.past)
  {
    var r := t.event.rule;
    if t.event.fate.Cancels() {
      Pushed(t.past.Cancelled(), r);
      assert Live(t.past) == (Live(t.past) - multiset{r}) + multiset{r};
    }
  }

  /** No rule is added twice, and a rule is either live or cancelled, not both. */
  lemma {:induction false} LiveOrCancelledOnce(t: Trace, r: Rule)
    requires FromEmpty(t)
    ensures Known(t)[r] <= 1
    ensures r in Known(t) ==> r.id < Adds(t)
  {
    if t.Then? {
      LiveOrCancelledOnce(t.past, r);
      if t.event.Visited? {
        KnownStays(t);
      } else if t.event.Added? {
        assert Known(t) == Known(t.past) + multiset{t.event.rule};
        LiveOrCancelledOnce(t.past, t.event.rule);
      }
    }
  }

  /** Nothing is done to a rule, no interest, callback or cancel function of it runs, after it was
      cancelled. */
  predicate QuietAfterCancel(t: Trace) {
    t.Then? ==>
      QuietAfterCancel(t.past) && (t.event.Visited? ==> t.event.rule !in t.past.Cancelled())
  }

  lemma {:induction false} CancelledForGood(t: Trace)
    requires FromEmpty(t)
    ensures QuietAfterCancel(t)
    ensures forall r :: multiset(t.Cancelled())[r] <= 1
  {
    forall r
      ensures multiset(t.Cancelled())[r] <= 1
    {
      LiveOrCancelledOnce(t, r);
    }
    if t.Then? {
      CancelledForGood(t.past);
      if t.event.Visited? {
        LiveOrCancelledOnce(t.past, t.event.rule);
        assert Known(t.past)[t.event.rule]
            == Live(t.past)[t.event.rule] + multiset(t.past.Cancelled())[t.event.rule];
      }
    }
  }

  /** A log in which, after a rule was cancelled, there is no call of a function of it. */
  predicate Quiet(log: Log) {
    log.Ran? ==>
      && Quiet(log.before)
      && (!log.what.Poll? ==> Times(log.before, Cancel(log.what.rule)) == 0)
  }

  lemma VisitIsQuiet(t: Trace)
    requires t.Sound() && t.Then? && t.event.Visited?
    requires Quiet(t.past.world.log) && Times(t.past.world.log, Cancel(t.event.rule)) == 0
    ensures Quiet(t.world.log)
  {
    if t.event.fate.Served? {
      assert Quiet(t.event.fate.returned.log);
      assert Times(t.event.fate.returned.log, Cancel(t.event.rule)) == 0;
    }
  }

  /** Over all calls, the log says the same: nothing of a rule runs after it was cancelled, */
  lemma {:induction false} LogIsQuiet(t: Trace)
    requires FromEmpty(t) && t.Origin().log == Silence
    ensures Quiet(t.world.log)
  {
    if t.Then? {
      LogIsQuiet(t.past);
      if t.event.Visited? {
        NotCancelledYet(t.past, t.event.rule);
        VisitIsQuiet(t);
      }
    }
  }

  /** and its cancel function runs at most once. */
  lemma CancelRunsAtMostOnce(t: Trace, r: Rule)
    requires FromEmpty(t) && t.Origin().log == Silence
    ensures Times(t.world.log, Cancel(r)) <= 1
  {
    LogTellsCancels(t, r);
    LiveOrCancelledOnce(t, r);
  }

  lemma NotCancelledYet(t: Trace, r: Rule)
    requires FromEmpty(t) && t.Origin().log == Silence && r in Live(t)
    ensures Times(t.world.log, Cancel(r)) == 0 && r !in t.Cancelled()
  {
    LogTellsCancels(t, r);
    LiveOrCancelledOnce(t, r);
    assert Known(t)[r] == Live(t)[r] + multiset(t.Cancelled())[r];
  }

  /** How often the callback of the rule ran. */
  function Calls(t: Trace, r: Rule): nat {
    Times(t.world.log, Callback(r))
  }

  predicate LostIt(f: Fate) {
    f.Served? && f.again == Some(false)
  }

  /** How often the rule was found uninterested just after a callback that left its counter alone. */
  function LostInterest(t: Trace, r: Rule): nat {
    if t.Start? then 0
    else LostInterest(t.past, r)
         + if t.event.Visited? && t.event.rule == r && LostIt(t.event.fate)
           then 1 else 0
  }

  /** How often it made the loop throw for a busy wait. */
  function BusyWaits(t: Trace, r: Rule): nat {
    if t.Start? then 0
    else BusyWaits(t.past, r)
         + if t.event.Visited? && t.event.rule == r && t.event.fate.Served? && t.event.fate.again == Some(true)
           then 1 else 0
  }

  /** What is polled, cancelled or called has a descriptor. */
  lemma {:induction false} KnownHasDescriptor(t: Trace, r: Rule)
    requires FromEmpty(t) && r in Known(t)
    ensures r.fd < |t.world.fds|
  {
    if t.Then? {
      if t.event.Visited? {
        KnownStays(t);
        KnownHasDescriptor(t.past, r);
      } else if t.event != Added(r) {
        KnownHasDescriptor(t.past, r);
      }
    }
  }

  /** The state of its descriptor when the rule was added. */
  function WhenAdded(t: Trace, r: Rule): FdState {
    if t.Start? then Descriptors.FdState(0, false, false, 0, 0)
    else if t.event == Added(r) && r.fd < |t.world.fds| then t.world.fds[r.fd]
    else WhenAdded(t.past, r)
  }

  /** The service count of its descriptor when the rule was added. */
  function CountWhenAdded(t: Trace, r: Rule): nat {
    if t.Start? then 0
    else if t.event == Added(r) then ServiceCount(t.world, r)
    else CountWhenAdded(t.past, r)
  }

  lemma CountsGrow(w: World, v: World, r: Rule)
    requires Advances(w, v)
    ensures ServiceCount(w, r) <= ServiceCount(v, r)
  {
    if r.fd < |w.fds| {
      assert FdAdvances(w.fds[r.fd], v.fds[r.fd]);
    }
  }

  lemma KnownGrows(t: Trace, r: Rule)
    requires FromEmpty(t) && t.Then?
    ensures r in Known(t.past) ==> r in Known(t)
    ensures t.event == Added(r) ==> r !in Known(t.past)
    ensures t.event.Visited? && t.event.rule == r ==> r in Known(t.past)
  {
    LiveOrCancelledOnce(t.past, r);
    if t.event.Visited? {
      KnownStays(t);
    }
  }

  lemma OneEvent(t: Trace, r: Rule)
    requires t.Sound() && t.Then?
    ensures Calls(t, r) - Calls(t.past, r) + ServiceCount(t.past.world, r)
         <= ServiceCount(t.world, r) + LostInterest(t, r) - LostInterest(t.past, r)
            + BusyWaits(t, r) - BusyWaits(t.past, r)
  {
    CountsGrow(t.past.world, t.world, r);
    if t.event.Visited? {
      OneVisit(t, r);
    }
    if t.event.Visited? && t.event.rule == r && t.event.fate.Served? {
      CountsGrow(t.past.world, t.event.fate.returned, r);
      CountsGrow(t.event.fate.returned, t.world, r);
    }
  }

  lemma {:induction false} NothingBeforeAdded(t: Trace, r: Rule)
    requires FromEmpty(t) && t.Origin().log == Silence && r !in Known(t)
    ensures Calls(t, r) == LostInterest(t, r) == BusyWaits(t, r) == 0
  {
    if t.Then? {
      KnownGrows(t, r);
      NothingBeforeAdded(t.past, r);
      if t.event.Visited? {
        OneVisit(t, r);
      }
    }
  }

  lemma {:induction false} BoundedByService(t: Trace, r: Rule)
    requires FromEmpty(t) && t.Origin().log == Silence
    ensures Calls(t, r) + CountWhenAdded(t, r) <= ServiceCount(t.world, r) + LostInterest(t, r) + BusyWaits(t, r)
  {
    if t.Then? {
      OneEvent(t, r);
      if t.event == Added(r) {
        KnownGrows(t, r);
        NothingBeforeAdded(t.past, r);
        assert Calls(t, r) == Calls(t.past, r);
      } else {
        BoundedByService(t.past, r);
        assert CountWhenAdded(t, r) == CountWhenAdded(t.past, r);
      }
    }
  }

  lemma {:induction false} CountIsOfDirection(t: Trace, r: Rule)
    requires FromEmpty(t) && r in Known(t)
    ensures CountWhenAdded(t, r)
         == if r.direction == In then WhenAdded(t, r).readCount else WhenAdded(t, r).writeCount
  {
    if t.Then? && t.event != Added(r) {
      if t.event.Visited? {
        KnownStays(t);
      }
      CountIsOfDirection(t.past, r);
    }
  }

  /** Every callback has read (for In) or written (for Out) its descriptor since the rule was added,
      or its rule lost interest after it, or it was the last thing before a busy wait was reported. A
      rule never added is never called back. */
  lemma CallbacksAreBounded(t: Trace, r: Rule)
    requires FromEmpty(t) && t.Origin().log == Silence
    ensures r !in Known(t) ==> Times(t.world.log, Callback(r)) == 0
    ensures r in Known(t) ==> r.fd < |t.world.fds|
    ensures r in Known(t) && r.direction == In ==>
              Times(t.world.log, Callback(r)) + WhenAdded(t, r).readCount
              <= t.world.fds[r.fd].readCount + LostInterest(t, r) + BusyWaits(t, r)
    ensures r in Known(t) && r.direction == Out ==>
              Times(t.world.log, Callback(r)) + WhenAdded(t, r).writeCount
              <= t.world.fds[r.fd].writeCount + LostInterest(t, r) + BusyWaits(t, r)
  {
    if r in Known(t) {
      KnownHasDescriptor(t, r);
      CountIsOfDirection(t, r);
      BoundedByService(t, r);
    } else {
      NothingBeforeAdded(t, r);
    }
  }

  lemma {:induction false} OriginOfAfter(t: Trace, earlier: Trace)
    ensures t.After(earlier).Origin() == earlier.Origin()
  {
    if t.Then? {
      OriginOfAfter(t.past, earlier);
    }
  }

  datatype Call = Add(fd: nat, direction: Direction) | Wait

  /** Any number of calls on a loop that starts empty, with anything happening between them. */
  method Run(calls: seq<Call>, start: World) returns (rules: seq<Rule>, world: World, ghost t: Trace)
    requires start.log == Silence
    ensures t.Origin() == start && t.world == world && FromEmpty(t)
    ensures multiset(rules) == Live(t)
    ensures Quiet(world.log) && forall r :: Times(world.log, Cancel(r)) <= 1
    ensures forall r | r !in Known(t) :: Times(world.log, Callback(r)) == 0
    ensures forall r | r in Known(t) && r.direction == In ::
              && r.fd < |world.fds|
              && Times(world.log, Callback(r)) + WhenAdded(t, r).readCount
                 <= world.fds[r.fd].readCount + LostInterest(t, r) + BusyWaits(t, r)
    ensures forall r | r in Known(t) && r.direction == Out ::
              && r.fd < |world.fds|
              && Times(world.log, Callback(r)) + WhenAdded(t, r).writeCount
                 <= world.fds[r.fd].writeCount + LostInterest(t, r) + BusyWaits(t, r)
  {
    var loop := new EventLoop(start);
    world := start;
    for i := 0 to |calls|
      invariant fresh(loop) && loop.Valid()
      invariant loop.trace.world == world && loop.trace.Origin() == start
    {
      var found := Effect(world);
      ghost var past := loop.trace;
      match calls[i]
      case Add(fd, direction) =>
        if fd < |found.fds| {
          loop.AddRule(found, fd, direction);
          world := found;
        }
      case Wait =>
        var outcome;
        ghost var poll, first, second;
        outcome, world, poll, first, second := loop.WaitNextEvent(found);
        ghost var polled := first.After(Then(past, Elsewhere, found));
        OriginOfAfter(first, Then(past, Elsewhere, found));
        OriginOfAfter(second, if poll == None then polled
                              else Then(polled, Waiting(first.Asked(), poll.value), second.Origin()));
    }
    rules, t := loop.rules, loop.trace;
    LogIsQuiet(t);
    forall r {
      CancelRunsAtMostOnce(t, r);
    }
    forall r {
      CallbacksAreBounded(t, r);
    }
  }
}
