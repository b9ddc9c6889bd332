/** The event loop (libsponge/util/eventloop.cc): rules on file descriptors, filtered, polled and
    dispatched by `wait_next_event`, which erases from the list of rules while it walks it. */
module Events {
  import opened Bytes
  import Descriptors

  type FdState = Descriptors.FdState

  datatype Direction = In | Out

  datatype Flag = PollIn | PollOut | PollErr | PollHup | PollNval

  /** A rule of the list. Its interest, callback and cancel functions may do anything to the
      descriptors that the program can do, but not touch the list; `id` tells rules apart. */
  datatype Rule = Rule(id: nat, fd: nat, direction: Direction)

  datatype PollFd = PollFd(fd: nat, events: set<Flag>)

  /** What `poll` did: nothing became ready in time, a signal came, it returned with results, or it
      failed otherwise, and `revents` are what they are. */
  datatype PollOutcome =
    | TimedOut
    | Interrupted
    | Returned(revents: map<nat, set<Flag>>)
    | OtherError(revents: map<nat, set<Flag>>)

  /** A call that the loop makes: of a function of a rule, or of `poll`. */
  datatype Invocation =
    | Interest(rule: Rule, answer: bool)
    | Callback(rule: Rule)
    | Cancel(rule: Rule)
    | Poll(pollfds: seq<PollFd>, outcome: PollOutcome)

  /** The calls made so far, in order. */
  datatype Log = Silence | Ran(before: Log, what: Invocation)

  /** The records of all descriptors, by handle, and what the loop has called. */
  datatype World = World(fds: seq<FdState>, log: Log)

  function Wanted(d: Direction): (flags: set<Flag>)
    ensures flags != {}
  {
    if d == In then {PollIn} else {PollOut}
  }

  // ---- What a descriptor can go through ---------------------------------------------------------

  predicate FdAdvances(a: FdState, b: FdState) {
    && a.fd == b.fd && (a.eof ==> b.eof) && (a.closed ==> b.closed)
    && a.readCount <= b.readCount && a.writeCount <= b.writeCount
  }

  /** The counters only grow and the flags are only ever set; new descriptors may appear. */
  predicate Advances(w: World, v: World) {
    |w.fds| <= |v.fds| && forall h | 0 <= h < |w.fds| :: FdAdvances(w.fds[h], v.fds[h])
  }

  function FdOf(w: World, r: Rule): FdState {
    if r.fd < |w.fds| then w.fds[r.fd] else Descriptors.FdState(0, false, false, 0, 0)
  }

  function ServiceCount(w: World, r: Rule): nat {
    if r.direction == In then FdOf(w, r).readCount else FdOf(w, r).writeCount
  }

  // ---- What happens to a rule -------------------------------------------------------------------

  /** How the visit to a rule came out, in the first pass or, from PollFailed on, in the second. */
  datatype Fate =
    | AtEof                                       // cancelled
    | Closed                                      // cancelled
    | Polled(asked: PollFd)
    | PollFailed(asked: PollFd, got: set<Flag>)   // threw
    | HungUp(asked: PollFd, got: set<Flag>)       // cancelled
    | NotReady(asked: PollFd, got: set<Flag>)
    | Served(asked: PollFd, got: set<Flag>, returned: World, again: Option<bool>)
      // the callback returned in this world; then interest was asked again, or not
  {
    predicate Cancels() {
      AtEof? || Closed? || HungUp?
    }

    predicate Throws() {
      PollFailed? || (Served? && again.Some? && again.value)
    }

    predicate SecondPass() {
      PollFailed? || HungUp? || NotReady? || Served?
    }
  }

  /** At eof with nothing but reading in mind, or closed. */
  predicate Doomed(w: World, r: Rule) {
    (r.direction == In && FdOf(w, r).eof) || FdOf(w, r).closed
  }

  predicate Failed(got: set<Flag>) {
    PollErr in got || PollNval in got
  }

  predicate Ready(asked: PollFd, got: set<Flag>) {
    asked.events * got != {}
  }

  /** Hangup is all there is, on a rule that was polled. */
  predicate Defunct(asked: PollFd, got: set<Flag>) {
    PollHup in got && asked.events != {} && !Ready(asked, got)
  }

  /** The fate `f` is what the code does to `r` when it comes upon it in the world `w`, and `v` is a
      world it can leave. */
  predicate Justified(r: Rule, f: Fate, w: World, v: World) {
    && Advances(w, v)
    && match f
       case AtEof => r.direction == In && FdOf(w, r).eof && v.log == Ran(w.log, Cancel(r))
       case Closed =>
         !(r.direction == In && FdOf(w, r).eof) && FdOf(w, r).closed && v.log == Ran(w.log, Cancel(r))
       case Polled(asked) =>
         && !Doomed(w, r) && asked.fd == FdOf(v, r).fd
         && (asked.events == Wanted(r.direction) || asked.events == {})
         && v.log == Ran(w.log, Interest(r, asked.events != {}))
       case PollFailed(_, got) => Failed(got) && v == w
       case HungUp(asked, got) => !Failed(got) && Defunct(asked, got) && v.log == Ran(w.log, Cancel(r))
       case NotReady(asked, got) => !Failed(got) && !Ready(asked, got) && !Defunct(asked, got) && v == w
       case Served(asked, got, returned, again) =>
         && !Failed(got) && Ready(asked, got)
         && Advances(w, returned) && returned.log == Ran(w.log, Callback(r)) && Advances(returned, v)
         && (again == None <==> ServiceCount(w, r) != ServiceCount(returned, r))
         && match again
            case None => v == returned
            case Some(answer) => v.log == Ran(returned.log, Interest(r, answer))
  }

  function AfterPoll(w: World, asked: seq<PollFd>, outcome: PollOutcome): World {
    w.(log := Ran(w.log, Poll(asked, outcome)))
  }

  /** A rule is added, the program goes on elsewhere, a rule is visited, or `poll` is called. */
  datatype Event =
    | Added(rule: Rule)
    | Elsewhere
    | Visited(rule: Rule, fate: Fate)
    | Waiting(pollfds: seq<PollFd>, outcome: PollOutcome)

  /** What happened, each event with the world it left. */
  datatype Trace = Start(world: World) | Then(past: Trace, event: Event, world: World) {

    /** This trace, after `earlier`. */
    function After(earlier: Trace): Trace {
      if Start? then earlier else Then(past.After(earlier), event, world)
    }

    /** The world it started from. */
    function Origin(): World {
      if Start? then world else past.Origin()
    }

    /** Every visit is one that the code makes. */
    predicate Sound() {
      Then? ==>
        && past.Sound() && Advances(past.world, world)
        && match event
           case Visited(r, f) => Justified(r, f, past.world, world)
           case Waiting(asked, outcome) => world == AfterPoll(past.world, asked, outcome)
           case _ => world.log == past.world.log
    }

    /** The rules visited, in order. */
    function Rules(): seq<Rule> {
      if Start? then []
      else if event.Visited? then past.Rules() + [event.rule] else past.Rules()
    }

    function Survivors(): seq<Rule> {
      if Start? then []
      else if event.Visited? && !event.fate.Cancels() then past.Survivors() + [event.rule]
      else past.Survivors()
    }

    function Cancelled(): seq<Rule> {
      if Start? then []
      else if event.Visited? && event.fate.Cancels() then past.Cancelled() + [event.rule]
      else past.Cancelled()
    }

    /** The rules whose callback ran, in order. */
    function Called(): seq<Rule> {
      if Start? then []
      else if event.Visited? && event.fate.Served? then past.Called() + [event.rule]
      else past.Called()
    }

    /** The pollfds of the surviving rules. */
    function Asked(): seq<PollFd> {
      if Start? then []
      else if event.Visited? && !event.fate.AtEof? && !event.fate.Closed? then past.Asked() + [event.fate.asked]
      else past.Asked()
    }

    predicate Interested() {
      Then? && (past.Interested() || (event.Visited? && event.fate.Polled? && event.fate.asked.events != {}))
    }

    predicate FirstPass() {
      Then? ==> past.FirstPass() && event.Visited? && !event.fate.SecondPass()
    }

    /** A second pass over rules whose i-th poll result is `revents[i]`, 0 where the kernel wrote none. */
    predicate SecondPass(revents: map<nat, set<Flag>>) {
      Then? ==>
        && past.SecondPass(revents) && event.Visited? && event.fate.SecondPass()
        && event.fate.got == Revents(revents, |past.Rules()|)
    }

    predicate ThrewAtEnd() {
      Then? && event.Visited? && event.fate.Throws()
    }

    predicate NeverThrew() {
      Then? ==> past.NeverThrew() && !ThrewAtEnd()
    }
  }

  function Revents(revents: map<nat, set<Flag>>, i: nat): set<Flag> {
    if i in revents then revents[i] else {}
  }

  // ---- The rules that are live ------------------------------------------------------------------

  /** How many rules were ever added. */
  function Adds(t: Trace): nat {
    if t.Start? then 0 else Adds(t.past) + if t.event.Added? then 1 else 0
  }

  /** The rules added and not cancelled. */
  function Live(t: Trace): multiset<Rule> {
    if t.Start? then multiset{}
    else match t.event
      case Added(r) => Live(t.past) + multiset{r}
      case Elsewhere => Live(t.past)
      case Waiting(_, _) => Live(t.past)
      case Visited(r, fate) => if fate.Cancels() then Live(t.past) - multiset{r} else Live(t.past)
  }

  /** New rules are new and on a descriptor there is, and only live ones are visited. */
  predicate Orderly(t: Trace) {
    t.Then? ==>
      && Orderly(t.past)
      && (t.event.Added? ==> t.event.rule.id == Adds(t.past) && t.event.rule.fd < |t.world.fds|)
      && (t.event.Visited? ==> t.event.rule in Live(t.past))
  }

  // ---- One call ---------------------------------------------------------------------------------

  datatype Outcome = Success | Timeout | Exit | Thrown(what: Complaint)

  datatype Complaint = ErrorOnDescriptor | BusyWait

  predicate Skipped(first: Trace, second: Trace, after: seq<Rule>) {
    second.Start? && after == first.Survivors()
  }

  /** The second pass goes, rule by rule and in order, over the rules that the first left and over
      the pollfds that it made of them; it ends at the end of the list, or where it throws. */
  ghost predicate Dispatched(outcome: Outcome, revents: map<nat, set<Flag>>, rules: seq<Rule>, asked: seq<PollFd>,
                             second: Trace, after: seq<Rule>)
  {
    && second.SecondPass(revents)
    && var n := |second.Rules()|;
       && n <= |rules| == |asked|
       && second.Rules() == rules[..n] && second.Asked() == asked[..n]
       && match outcome
          case Success => n == |rules| && second.NeverThrew() && after == second.Survivors()
          case Thrown(what) =>
            && after == second.Survivors() + rules[n..]
            && second.ThrewAtEnd() && second.past.NeverThrew()
            && (what == ErrorOnDescriptor <==> second.event.fate.PollFailed?)
          case _ => false
  }

  /** One call of `wait_next_event`, from the rules `before` to the rules `after`. */
  ghost predicate Waited(outcome: Outcome, poll: Option<PollOutcome>, before: seq<Rule>,
                         first: Trace, second: Trace, after: seq<Rule>)
  {
    && first.FirstPass() && first.Sound() && second.Sound()
    && first.Rules() == before
    && (poll == None <==> !first.Interested())
    && second.Origin() == (if poll == None then first.world else AfterPoll(first.world, first.Asked(), poll.value))
    && match poll
       case None => outcome == Exit && Skipped(first, second, after)
       case Some(TimedOut) => outcome == Timeout && Skipped(first, second, after)
       case Some(Interrupted) => outcome == Exit && Skipped(first, second, after)
       case Some(Returned(revents)) =>
         Dispatched(outcome, revents, first.Survivors(), first.Asked(), second, after)
       case Some(OtherError(revents)) =>
         Dispatched(outcome, revents, first.Survivors(), first.Asked(), second, after)
  }

  /** A pass in the middle of its walk: of the rules `orig` it has visited `i`, and it stands at
      `pos`; the list is what survived so far, and then what is still to be visited. */
  ghost predicate Walking(orig: seq<Rule>, i: nat, rules: seq<Rule>, pos: nat, pass: Trace) {
    && i <= |orig| && pass.Rules() == orig[..i]
    && pos == |pass.Survivors()| && |rules| == pos + |orig| - i
    && rules == pass.Survivors() + orig[i..]
  }

  /** A first pass, and what it has made so far. */
  ghost predicate SettingUp(pass: Trace, pollfds: seq<PollFd>, something: bool) {
    pass.FirstPass() && pass.Sound() && pass.Asked() == pollfds && pass.Interested() == something
  }

  lemma OneSetUp(pass: Trace, pollfds: seq<PollFd>, something: bool, r: Rule, f: Fate, v: World)
    requires SettingUp(pass, pollfds, something) && !f.SecondPass() && Justified(r, f, pass.world, v)
    ensures var next := Then(pass, Visited(r, f), v);
            if f.Cancels() then SettingUp(next, pollfds, something)
            else SettingUp(next, pollfds + [f.asked], something || f.asked.events != {})
  {
  }

  /** A second pass that has looked at `idx` poll results. */
  ghost predicate Dispatching(pass: Trace, revents: map<nat, set<Flag>>, pollfds: seq<PollFd>, idx: nat) {
    && idx <= |pollfds| && pass.SecondPass(revents) && pass.Sound() && pass.NeverThrew()
    && |pass.Rules()| == idx && pass.Asked() == pollfds[..idx]
  }

  lemma OneFurther(pass: Trace, revents: map<nat, set<Flag>>, pollfds: seq<PollFd>, idx: nat,
                   r: Rule, f: Fate, v: World)
    requires Dispatching(pass, revents, pollfds, idx) && idx < |pollfds|
    requires f.SecondPass() && f.asked == pollfds[idx] && f.got == Revents(revents, idx)
    requires Justified(r, f, pass.world, v)
    ensures var next := Then(pass, Visited(r, f), v);
            && next.SecondPass(revents) && next.Sound() && next.past.NeverThrew()
            && |next.Rules()| == idx + 1 && next.Asked() == pollfds[..idx + 1]
            && (!f.Throws() ==> Dispatching(next, revents, pollfds, idx + 1))
  {
    assert pollfds[..idx + 1] == pollfds[..idx] + [pollfds[idx]];
  }

  function Erase(rules: seq<Rule>, pos: nat): seq<Rule>
    requires pos < |rules|
  {
    rules[..pos] + rules[pos + 1..]
  }

  lemma WalkOn(orig: seq<Rule>, i: nat, rules: seq<Rule>, pos: nat, pass: Trace, f: Fate, v: World)
    requires Walking(orig, i, rules, pos, pass) && pos < |rules|
    ensures rules[pos] == orig[i]
    ensures var next := Then(pass, Visited(rules[pos], f), v);
            if f.Cancels() then Walking(orig, i + 1, Erase(rules, pos), pos, next)
            else Walking(orig, i + 1, rules, pos + 1, next)
  {
    assert orig[..i + 1] == orig[..i] + [orig[i]];
    assert orig[i..] == [orig[i]] + orig[i + 1..];
  }

  lemma WalkEnds(orig: seq<Rule>, i: nat, rules: seq<Rule>, pos: nat, pass: Trace)
    requires Walking(orig, i, rules, pos, pass) && pos == |rules|
    ensures pass.Rules() == orig && pass.Survivors() == rules
  {
  }

  /** What keeps a trace in step with the list of rules. */
  ghost predicate InStep(rules: seq<Rule>, t: Trace) {
    t.Sound() && Orderly(t) && multiset(rules) == Live(t)
  }

  lemma AsManyPollFds(pass: Trace)
    requires pass.FirstPass()
    ensures |pass.Asked()| == |pass.Survivors()|
  {
    if pass.Then? {
      AsManyPollFds(pass.past);
    }
  }

  predicate OnlyVisits(pass: Trace) {
    pass.Then? ==> OnlyVisits(pass.past) && pass.event.Visited?
  }

  /** Every rule that is visited either survives or is cancelled. */
  lemma {:induction false} SurviveOrCancelled(pass: Trace)
    ensures multiset(pass.Rules()) == multiset(pass.Survivors()) + multiset(pass.Cancelled())
  {
    if pass.Then? {
      SurviveOrCancelled(pass.past);
    }
  }

  lemma {:induction false} PassKeepsSound(t: Trace, pass: Trace)
    requires t.Sound() && pass.Sound() && OnlyVisits(pass) && pass.Origin() == t.world
    ensures var u := pass.After(t);
            u.Sound() && u.world == pass.world && Adds(u) == Adds(t)
  {
    if pass.Then? {
      PassKeepsSound(t, pass.past);
    }
  }

  lemma Pushed(rules: seq<Rule>, r: Rule)
    ensures multiset(rules + [r]) == multiset(rules) + multiset{r}
  {
  }

  lemma StillLive(all: multiset<Rule>, live: multiset<Rule>, visited: multiset<Rule>,
                  survivors: multiset<Rule>, cancelled: multiset<Rule>, r: Rule)
    requires live + cancelled == all && visited == survivors + cancelled && visited + multiset{r} <= all
    ensures r in live && (live - multiset{r}) + (cancelled + multiset{r}) == all
  {
    assert (visited + multiset{r})[r] <= all[r];
  }

  /** A pass over rules that are live makes the trace longer, and the cancelled ones are not live any more. */
  lemma {:induction false} PassKeepsTrace(t: Trace, pass: Trace)
    requires Orderly(t) && OnlyVisits(pass) && multiset(pass.Rules()) <= Live(t)
    ensures Orderly(pass.After(t))
    ensures Live(pass.After(t)) + multiset(pass.Cancelled()) == Live(t)
  {
    if pass.Then? {
      var past, r := pass.past, pass.event.rule;
      Pushed(past.Rules(), r);
      PassKeepsTrace(t, past);
      SurviveOrCancelled(past);
      StillLive(Live(t), Live(past.After(t)), multiset(past.Rules()), multiset(past.Survivors()),
                multiset(past.Cancelled()), r);
      var u := past.After(t);
      assert pass.After(t) == Then(u, pass.event, pass.world);
      if pass.event.fate.Cancels() {
        Pushed(past.Cancelled(), r);
        assert Live(pass.After(t)) == Live(u) - multiset{r};
        assert multiset(pass.Cancelled()) == multiset(past.Cancelled()) + multiset{r};
      } else {
        assert Live(pass.After(t)) == Live(u);
        assert pass.Cancelled() == past.Cancelled();
      }
    }
  }

  lemma Leftover(visited: multiset<Rule>, survivors: multiset<Rule>, cancelled: multiset<Rule>,
                 ahead: multiset<Rule>, live: multiset<Rule>)
    requires visited == survivors + cancelled && live + cancelled == visited + ahead
    ensures live == survivors + ahead
  {
    forall r
      ensures live[r] == (survivors + ahead)[r]
    {
      assert (live + cancelled)[r] == (visited + ahead)[r];
    }
  }

  lemma PassKeepsStep(before: seq<Rule>, t: Trace, pass: Trace, after: seq<Rule>)
    requires InStep(before, t) && pass.Origin() == t.world
    requires pass.Sound() && OnlyVisits(pass) && pass.Rules() <= before
    requires after == pass.Survivors() + before[|pass.Rules()|..]
    ensures InStep(after, pass.After(t))
    ensures pass.After(t).world == pass.world && Adds(pass.After(t)) == Adds(t)
  {
    var n := |pass.Rules()|;
    assert before == pass.Rules() + before[n..];
    SurviveOrCancelled(pass);
    assert multiset(before) == multiset(pass.Rules()) + multiset(before[n..]);
    assert multiset(after) == multiset(pass.Survivors()) + multiset(before[n..]);
    PassKeepsSound(t, pass);
    PassKeepsTrace(t, pass);
    Leftover(multiset(pass.Rules()), multiset(pass.Survivors()), multiset(pass.Cancelled()),
             multiset(before[n..]), Live(pass.After(t)));
  }

  lemma {:induction false} PassesVisit(pass: Trace, revents: map<nat, set<Flag>>)
    ensures pass.FirstPass() || pass.SecondPass(revents) ==> OnlyVisits(pass)
  {
    if pass.Then? {
      PassesVisit(pass.past, revents);
    }
  }

  lemma FirstPassKeepsStep(before: seq<Rule>, t: Trace, pass: Trace)
    requires InStep(before, t) && pass.Origin() == t.world && pass.Sound() && pass.FirstPass()
    requires pass.Rules() == before
    ensures InStep(pass.Survivors(), pass.After(t))
    ensures pass.After(t).world == pass.world && Adds(pass.After(t)) == Adds(t)
    ensures |pass.Asked()| == |pass.Survivors()|
  {
    PassesVisit(pass, map[]);
    AsManyPollFds(pass);
    assert before[|before|..] == [] && pass.Survivors() == pass.Survivors() + [];
    PassKeepsStep(before, t, pass, pass.Survivors());
  }

  lemma SecondPassKeepsStep(outcome: Outcome, revents: map<nat, set<Flag>>, left: seq<Rule>, asked: seq<PollFd>,
                            t: Trace, pass: Trace, after: seq<Rule>)
    requires InStep(left, t) && pass.Origin() == t.world && pass.Sound()
    requires Dispatched(outcome, revents, left, asked, pass, after)
    ensures InStep(after, pass.After(t))
    ensures pass.After(t).world == pass.world && Adds(pass.After(t)) == Adds(t)
  {
    PassesVisit(pass, revents);
    if outcome == Success {
      assert left[|left|..] == [] && after == after + [];
    }
    PassKeepsStep(left, t, pass, after);
  }

  lemma PollKeepsStep(rules: seq<Rule>, t: Trace, pollfds: seq<PollFd>, outcome: PollOutcome)
    requires InStep(rules, t)
    ensures var u := Then(t, Waiting(pollfds, outcome), AfterPoll(t.world, pollfds, outcome));
            InStep(rules, u) && Adds(u) == Adds(t)
  {
    AdvancesReflexive(t.world);
  }

  lemma AdvancesReflexive(w: World)
    ensures Advances(w, w)
  {
  }

  lemma AdvancesTransitive(w: World, v: World, u: World)
    requires Advances(w, v) && Advances(v, u)
    ensures Advances(w, u)
  {
  }

  /** The program, or a function of a rule: it may do anything that the descriptors allow. */
  method Effect(w: World) returns (v: World)
    ensures Advances(w, v) && v.log == w.log
  {
    v := *;
    v := if Advances(w, v) then v.(log := w.log) else w;
  }

  method RunCancel(r: Rule, w: World) returns (v: World)
    ensures Advances(w, v) && v.log == Ran(w.log, Cancel(r))
  {
    v := Effect(w);
    v := v.(log := Ran(w.log, Cancel(r)));
  }

  method RunCallback(r: Rule, w: World) returns (v: World)
    ensures Advances(w, v) && v.log == Ran(w.log, Callback(r))
  {
    v := Effect(w);
    v := v.(log := Ran(w.log, Callback(r)));
  }

  method RunInterest(r: Rule, w: World) returns (answer: bool, v: World)
    ensures Advances(w, v) && v.log == Ran(w.log, Interest(r, answer))
  {
    answer := *;
    v := Effect(w);
    v := v.(log := Ran(w.log, Interest(r, answer)));
  }

  method RunPoll(pollfds: seq<PollFd>, w: World) returns (outcome: PollOutcome, v: World)
    ensures v == AfterPoll(w, pollfds, outcome)
  {
    outcome := *;
    v := AfterPoll(w, pollfds, outcome);
  }

  class EventLoop {
    var rules: seq<Rule>
    ghost var trace: Trace
    var added: nat   // tells rules apart; the list has their addresses for that

    ghost predicate Valid()
      reads this
    {
      InStep(rules, trace) && added == Adds(trace)
    }

    constructor (w: World)
      ensures Valid() && rules == [] && trace == Start(w)
    {
      rules := [];
      trace := Start(w);
      added := 0;
    }

    method AddRule(w: World, fd: nat, direction: Direction)
      requires Valid() && Advances(trace.world, w) && w.log == trace.world.log && fd < |w.fds|
      modifies this
      ensures Valid()
      ensures rules == old(rules) + [Rule(old(added), fd, direction)]
      ensures trace == Then(Then(old(trace), Elsewhere, w), Added(rules[|rules| - 1]), w)
    {
      var r := Rule(added, fd, direction);
      rules := rules + [r];
      trace := Then(Then(trace, Elsewhere, w), Added(r), w);
      added := added + 1;
      AdvancesReflexive(w);
    }

    /** `this_rule.cancel(); it = _rules.erase(it);` */
    method CancelAndErase(pos: nat, w: World) returns (v: World)
      requires pos < |rules|
      modifies `rules
      ensures rules == Erase(old(rules), pos)
      ensures Advances(w, v) && v.log == Ran(w.log, Cancel(old(rules)[pos]))
    {
      v := RunCancel(rules[pos], w);
      rules := Erase(rules, pos);
    }

    /** The callback, and the check that it was not for nothing. */
    method CallBack(r: Rule, w: World) returns (returned: World, again: Option<bool>, v: World)
      ensures Advances(w, returned) && Advances(returned, v) && Advances(w, v)
      ensures again == None <==> ServiceCount(w, r) != ServiceCount(returned, r)
      ensures returned.log == Ran(w.log, Callback(r))
      ensures if again == None then v == returned else v.log == Ran(returned.log, Interest(r, again.value))
    {
      var countBefore := ServiceCount(w, r);
      returned := RunCallback(r, w);
      v, again := returned, None;
      if countBefore == ServiceCount(returned, r) {
        var interested;
        interested, v := RunInterest(r, returned);
        again := Some(interested);
      }
      AdvancesTransitive(w, returned, v);
    }

    /** The body of the first loop of `wait_next_event`: a pollfd for the rule at `pos`, or none. */
    method SetUpOne(pos: nat, w: World) returns (pollfd: Option<PollFd>, v: World, ghost f: Fate)
      requires pos < |rules|
      modifies `rules
      ensures Justified(old(rules)[pos], f, w, v) && !f.SecondPass()
      ensures rules == if f.Cancels() then Erase(old(rules), pos) else old(rules)
      ensures pollfd == if f.Cancels() then None else Some(f.asked)
    {
      var r := rules[pos];
      if r.direction == In && FdOf(w, r).eof {
        v := CancelAndErase(pos, w);
        return None, v, AtEof;
      }
      if FdOf(w, r).closed {
        v := CancelAndErase(pos, w);
        return None, v, Closed;
      }
      var interested;
      interested, v := RunInterest(r, w);
      var asked := PollFd(FdOf(v, r).fd, if interested then Wanted(r.direction) else {});
      return Some(asked), v, Polled(asked);
    }

    /** The first loop: one pollfd for each rule that stays. */
    method SetUp(w: World) returns (pollfds: seq<PollFd>, something: bool, v: World, ghost pass: Trace)
      modifies `rules
      ensures SettingUp(pass, pollfds, something) && pass.Origin() == w && pass.world == v
      ensures pass.Rules() == old(rules) && pass.Survivors() == rules
    {
      ghost var orig, i := rules, 0;
      pollfds, something, v, pass := [], false, w, Start(w);
      var pos: nat := 0;
      while pos < |rules|
        invariant Walking(orig, i, rules, pos, pass)
        invariant SettingUp(pass, pollfds, something) && pass.Origin() == w && pass.world == v
        decreases |orig| - i
      {
        ghost var here := rules;
        var pollfd, u;
        ghost var f;
        pollfd, u, f := SetUpOne(pos, v);
        WalkOn(orig, i, here, pos, pass, f, u);
        OneSetUp(pass, pollfds, something, here[pos], f, u);
        pass, v, i := Then(pass, Visited(here[pos], f), u), u, i + 1;
        if pollfd.Some? {
          pollfds := pollfds + [pollfd.value];
          something := something || pollfd.value.events != {};
          pos := pos + 1;
        }
      }
      WalkEnds(orig, i, rules, pos, pass);
    }

    /** The body of the second loop, for the rule at `pos` and its poll result. */
    method DispatchOne(pos: nat, asked: PollFd, got: set<Flag>, w: World)
      returns (erased: bool, threw: Option<Complaint>, v: World, ghost f: Fate)
      requires pos < |rules|
      modifies `rules
      ensures Justified(old(rules)[pos], f, w, v) && f.SecondPass() && f.asked == asked && f.got == got
      ensures erased == f.Cancels() && rules == if erased then Erase(old(rules), pos) else old(rules)
      ensures threw.Some? == f.Throws() && (threw == Some(ErrorOnDescriptor) <==> f.PollFailed?)
    {
      erased, threw, v := false, None, w;
      AdvancesReflexive(w);
      if Failed(got) {
        return false, Some(ErrorOnDescriptor), w, PollFailed(asked, got);
      }
      var r := rules[pos];
      if PollHup in got && asked.events != {} && !Ready(asked, got) {
        v := CancelAndErase(pos, w);
        return true, None, v, HungUp(asked, got);
      }
      if Ready(asked, got) {
        var returned, again;
        returned, again, v := CallBack(r, w);
        threw := if again.Some? && again.value then Some(BusyWait) else None;
        return false, threw, v, Served(asked, got, returned, again);
      }
      return false, None, w, NotReady(asked, got);
    }

    /** The second loop: the poll results, rule by rule. An exception ends it. */
    method Dispatch(pollfds: seq<PollFd>, revents: map<nat, set<Flag>>, w: World)
      returns (outcome: Outcome, v: World, ghost pass: Trace)
      requires |pollfds| == |rules|
      modifies `rules
      ensures pass.Sound() && pass.Origin() == w && pass.world == v
      ensures Dispatched(outcome, revents, old(rules), pollfds, pass, rules)
    {
      ghost var orig := rules;
      v, pass := w, Start(w);
      var pos: nat, idx: nat := 0, 0;
      while pos < |rules|
        invariant Walking(orig, idx, rules, pos, pass)
        invariant Dispatching(pass, revents, pollfds, idx) && pass.Origin() == w && pass.world == v
        decreases |orig| - idx
      {
        ghost var here := rules;
        var erased, threw, u;
        ghost var f;
        erased, threw, u, f := DispatchOne(pos, pollfds[idx], Revents(revents, idx), v);
        WalkOn(orig, idx, here, pos, pass, f, u);
        OneFurther(pass, revents, pollfds, idx, here[pos], f, u);
        pass, v, idx := Then(pass, Visited(here[pos], f), u), u, idx + 1;
        if threw.Some? {
          return Thrown(threw.value), v, pass;
        }
        if !erased {
          pos := pos + 1;
        }
      }
      WalkEnds(orig, idx, rules, pos, pass);
      return Success, v, pass;
    }

    /** One call. Between calls the program may have gone on: `w` is the world it finds. */
    method WaitNextEvent(w: World)
      returns (outcome: Outcome, v: World, ghost poll: Option<PollOutcome>, ghost first: Trace, ghost second: Trace)
      requires Valid() && Advances(trace.world, w) && w.log == trace.world.log
      modifies `rules, `trace
      ensures Valid() && v == trace.world
      ensures var polled := first.After(Then(old(trace), Elsewhere, w));
              trace == second.After(if poll == None then polled
                                    else Then(polled, Waiting(first.Asked(), poll.value), second.Origin()))
      ensures first.Origin() == w
      ensures Waited(outcome, poll, old(rules), first, second, rules)
    {
      ghost var before, found := rules, Then(trace, Elsewhere, w);
      var pollfds, something;
      pollfds, something, v, first := SetUp(w);
      AdvancesReflexive(w);
      FirstPassKeepsStep(before, found, first);
      ghost var left, polled := rules, first.After(found);
      second, poll, trace := Start(v), None, polled;
      if !something {
        return Exit, v, poll, first, second;
      }
      var got;
      got, v := RunPoll(pollfds, v);
      PollKeepsStep(left, polled, pollfds, got);
      polled := Then(polled, Waiting(pollfds, got), v);
      second, poll, trace := Start(v), Some(got), polled;
      if got == TimedOut {
        return Timeout, v, poll, first, second;
      }
      if got == Interrupted {
        return Exit, v, poll, first, second;
      }
      outcome, v, second := Dispatch(pollfds, got.revents, v);
      SecondPassKeepsStep(outcome, got.revents, left, pollfds, polled, second, rules);
      trace := second.After(polled);
    }
  }
}
