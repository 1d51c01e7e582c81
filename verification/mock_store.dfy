/**
 The MockStore creation methods as a trace-producing machine. Each call
 validates its name and tags, reports every violation through `errorf`,
 delegates to the wrapped store with its arguments unchanged and flushes;
 a panic in `errorf` ends the call before delegation.
 */
module MockStore {
  import opened Wrappers
  import opened Utf8
  import opened StatValidation
  import opened StatsValidation
  import opened Reporting

  /** The validating creation methods, with the arguments the caller passed. */
  datatype Call =
    | Scope(name: Bytes)
    | ScopeWithTags(name: Bytes, tags: Tags)
    | NewCounter(name: Bytes)
    | NewCounterWithTags(name: Bytes, tags: Tags)
    | NewPerInstanceCounter(name: Bytes, tags: Tags)
    | NewGauge(name: Bytes)
    | NewGaugeWithTags(name: Bytes, tags: Tags)
    | NewPerInstanceGauge(name: Bytes, tags: Tags)
    | NewTimer(name: Bytes)
    | NewTimerWithTags(name: Bytes, tags: Tags)
    | NewPerInstanceTimer(name: Bytes, tags: Tags)
  {
    /** The forms without tags; they validate with a nil map. */
    predicate Untagged() {
      Scope? || NewCounter? || NewGauge? || NewTimer?
    }

    /** The tag map handed to `validateStats`. */
    function TagsOf(): Tags {
      if Untagged() then map[] else tags
    }
  }

  /** What an observer of the store and the test sees, in order. */
  datatype Event =
    | Reported(effect: Effect<Report>)   // a logged, failed or panicking report
    | Delegated(call: Call)               // the wrapped store's method ran on these arguments
    | Flushed                             // the wrapped store was flushed

  /** The events of a run of reports, and whether one of them panicked. */
  datatype Outcome = Outcome(events: seq<Event>, panicked: bool)

  /** Reports fed one by one to `errorf`; a panic stops the loop. */
  function Emit(mode: Mode, rs: seq<Report>): Outcome
    decreases |rs|
  {
    if |rs| == 0 then Outcome([], false)
    else
      var e := Errorf(mode, rs[0]);
      if e.Panicked? then Outcome([Reported(e)], true)
      else
        var rest := Emit(mode, rs[1..]);
        Outcome((if e == NoEffect then [] else [Reported(e)]) + rest.events, rest.panicked)
  }

  /** The body shared by the creation methods, given the reports validation produced for `call`. */
  function Proxy(mode: Mode, call: Call, rs: seq<Report>): seq<Event>
  {
    var out := Emit(mode, rs);
    if out.panicked then out.events else out.events + [Delegated(call), Flushed]
  }

  /** One creation call on a store in `mode`, with `order` the map iteration order of its tags. */
  function Handle(mode: Mode, replace: Sanitizer, call: Call, order: seq<Bytes>): seq<Event>
    requires IsIterationOrder(call.TagsOf(), order)
  {
    Proxy(mode, call, ValidateStats(call.name, call.TagsOf(), replace, order))
  }

  /** The events that reach the wrapped store. */
  function Observable(trace: seq<Event>): (out: seq<Event>)
    ensures forall e :: e in out ==> e in trace && !e.Reported?
    decreases |trace|
  {
    if |trace| == 0 then []
    else (if trace[0].Reported? then [] else [trace[0]]) + Observable(trace[1..])
  }

  /** The reports carried by the report events of a trace, in order. */
  function Messages(trace: seq<Event>): (out: seq<Report>)
    decreases |trace|
  {
    if |trace| == 0 then []
    else
      (if trace[0].Reported? && trace[0].effect != NoEffect then [trace[0].effect.msg] else [])
      + Messages(trace[1..])
  }

  lemma {:induction false} ObservableAppend(a: seq<Event>, b: seq<Event>)
    ensures Observable(a + b) == Observable(a) + Observable(b)
    decreases |a|
  {
    if |a| > 0 {
      assert (a + b)[1..] == a[1..] + b;
      ObservableAppend(a[1..], b);
    } else {
      assert a + b == b;
    }
  }

  lemma {:induction false} MessagesAppend(a: seq<Event>, b: seq<Event>)
    ensures Messages(a + b) == Messages(a) + Messages(b)
    decreases |a|
  {
    if |a| > 0 {
      assert (a + b)[1..] == a[1..] + b;
      MessagesAppend(a[1..], b);
    } else {
      assert a + b == b;
    }
  }

  /**
   With a test context, every report is turned into its effect and
   execution continues: no panic, nothing reaches the wrapped store, and
   the messages are all the reports (none when ignoring).
   */
  lemma {:induction false} EmitContinues(mode: Mode, rs: seq<Report>)
    requires mode != NoContext
    ensures !Emit(mode, rs).panicked
    ensures Observable(Emit(mode, rs).events) == []
    ensures Messages(Emit(mode, rs).events) == if mode == IgnoreErrors then [] else rs
    ensures mode == IgnoreErrors ==> Emit(mode, rs).events == []
    decreases |rs|
  {
    if |rs| > 0 {
      var e := Errorf(mode, rs[0]);
      var head: seq<Event> := if e == NoEffect then [] else [Reported(e)];
      var rest := Emit(mode, rs[1..]);
      EmitContinues(mode, rs[1..]);
      ObservableAppend(head, rest.events);
      MessagesAppend(head, rest.events);
      assert Messages(head) == if e == NoEffect then [] else [rs[0]];
      assert rs == [rs[0]] + rs[1..];
    }
  }

  /** Under a mode that does not panic, every event of a run of reports is the effect `errorf` gives its report. */
  lemma {:induction false} EmitEffects(mode: Mode, rs: seq<Report>)
    requires mode != NoContext
    ensures forall e :: e in Emit(mode, rs).events ==>
      e.Reported? && e.effect != NoEffect && e.effect == Errorf(mode, e.effect.msg)
    decreases |rs|
  {
    if |rs| > 0 {
      EmitEffects(mode, rs[1..]);
    }
  }

  /**
   Without a test context the first report panics and nothing after it
   runs; with no report nothing happens at all.
   */
  lemma EmitNoContext(rs: seq<Report>)
    ensures Emit(NoContext, rs) ==
      if rs == [] then Outcome([], false) else Outcome([Reported(Panicked(rs[0]))], true)
  {
  }

  /**
   Validation is purely observational: whatever the validation outcome, a
   store with a test context delegates the call once with its arguments
   unchanged and then flushes once, and the reports come before both.
   */
  lemma DelegatesUnchanged(mode: Mode, replace: Sanitizer, call: Call, order: seq<Bytes>)
    requires IsIterationOrder(call.TagsOf(), order)
    requires mode != NoContext
    ensures Observable(Handle(mode, replace, call, order)) == [Delegated(call), Flushed]
    ensures var h := Handle(mode, replace, call, order);
      |h| >= 2 && h[|h| - 2] == Delegated(call) && h[|h| - 1] == Flushed
  {
    var ev := HandleShape(mode, replace, call, order);
    var tail := [Delegated(call), Flushed];
    ObservableAppend(ev, tail);
    ObservableTail(call);
  }

  /** With a test context a call's trace is its report events followed by the delegation and the flush. */
  lemma HandleShape(mode: Mode, replace: Sanitizer, call: Call, order: seq<Bytes>) returns (ev: seq<Event>)
    requires IsIterationOrder(call.TagsOf(), order)
    requires mode != NoContext
    ensures Observable(ev) == []
    ensures Handle(mode, replace, call, order) == ev + [Delegated(call), Flushed]
  {
    ev := ProxyShape(mode, call, ValidateStats(call.name, call.TagsOf(), replace, order));
  }

  lemma ProxyShape(mode: Mode, call: Call, rs: seq<Report>) returns (ev: seq<Event>)
    requires mode != NoContext
    ensures ev == Emit(mode, rs).events
    ensures Observable(ev) == []
    ensures Proxy(mode, call, rs) == ev + [Delegated(call), Flushed]
  {
    EmitContinues(mode, rs);
    ev := Emit(mode, rs).events;
  }

  /** Delegation and flush both reach the wrapped store. */
  lemma ObservableTail(call: Call)
    ensures Observable([Delegated(call), Flushed]) == [Delegated(call), Flushed]
  {
    assert [Delegated(call), Flushed][1..] == [Flushed] && [Flushed][1..] == [];
  }

  /**
   Every violation reaches the test: when logging or failing tests, the
   reports in the trace are exactly the reports of `validateStats`, each as
   a log line or as a non-fatal failure according to the mode.
   */
  lemma EveryReportSurfaces(mode: Mode, replace: Sanitizer, call: Call, order: seq<Bytes>)
    requires IsIterationOrder(call.TagsOf(), order)
    requires mode == LogErrors || mode == FailTest
    ensures Messages(Handle(mode, replace, call, order)) == ValidateStats(call.name, call.TagsOf(), replace, order)
    ensures forall e :: e in Handle(mode, replace, call, order) && e.Reported? ==>
      if mode == FailTest then e.effect.Failed? else e.effect.Logged?
  {
    ProxySurfaces(mode, call, ValidateStats(call.name, call.TagsOf(), replace, order));
  }

  lemma ProxySurfaces(mode: Mode, call: Call, rs: seq<Report>)
    requires mode == LogErrors || mode == FailTest
    ensures Messages(Proxy(mode, call, rs)) == rs
    ensures forall e :: e in Proxy(mode, call, rs) && e.Reported? ==>
      if mode == FailTest then e.effect.Failed? else e.effect.Logged?
  {
    var tail := [Delegated(call), Flushed];
    var ev := ProxyShape(mode, call, rs);
    EmitContinues(mode, rs);
    MessagesAppend(ev, tail);
    assert tail[1..] == [Flushed] && [Flushed][1..] == [];
    assert Messages([Flushed]) == [];
    EmitEffects(mode, rs);
    forall e | e in Proxy(mode, call, rs) && e.Reported?
      ensures if mode == FailTest then e.effect.Failed? else e.effect.Logged?
    {
      assert e in ev;
      assert e.effect == Errorf(mode, e.effect.msg);
    }
  }

  /** With the ignoring mode the trace is the delegation and flush alone, even for an invalid call. */
  lemma IgnoreIsSilent(replace: Sanitizer, call: Call, order: seq<Bytes>)
    requires IsIterationOrder(call.TagsOf(), order)
    ensures Handle(IgnoreErrors, replace, call, order) == [Delegated(call), Flushed]
  {
    var ev := ProxyShape(IgnoreErrors, call, ValidateStats(call.name, call.TagsOf(), replace, order));
    EmitContinues(IgnoreErrors, ValidateStats(call.name, call.TagsOf(), replace, order));
  }

  /**
   Without a test context an invalid call panics with its first report
   before the wrapped store is reached; a valid one delegates and flushes.
   */
  lemma NoContextAborts(replace: Sanitizer, call: Call, order: seq<Bytes>)
    requires IsIterationOrder(call.TagsOf(), order)
    ensures var rs := ValidateStats(call.name, call.TagsOf(), replace, order);
      Handle(NoContext, replace, call, order) ==
        if rs == [] then [Delegated(call), Flushed] else [Reported(Panicked(rs[0]))]
  {
    ProxyNoContext(call, ValidateStats(call.name, call.TagsOf(), replace, order));
  }

  lemma ProxyNoContext(call: Call, rs: seq<Report>)
    ensures Proxy(NoContext, call, rs) ==
      if rs == [] then [Delegated(call), Flushed] else [Reported(Panicked(rs[0]))]
  {
    EmitNoContext(rs);
  }

  /** The untagged forms validate only the name: at most one report, about the name. */
  lemma UntaggedChecksNameOnly(mode: Mode, replace: Sanitizer, call: Call, order: seq<Bytes>)
    requires call.Untagged()
    requires IsIterationOrder(call.TagsOf(), order)
    ensures order == []
    ensures ValidateStats(call.name, call.TagsOf(), replace, order) ==
      match ValidateStat(call.name) case None => [] case Some(e) => [BadName(e)]
  {
    DistinctCard(order);
    assert (set k | k in order) == {};
  }

  /** One call of a session: the method and the iteration order its tag map happened to use. */
  datatype Invocation = Invocation(call: Call, order: seq<Bytes>)

  predicate WellOrdered(calls: seq<Invocation>) {
    forall i :: 0 <= i < |calls| ==> IsIterationOrder(calls[i].call.TagsOf(), calls[i].order)
  }

  /** One call of a session: its trace, and whether it panicked. */
  function Step(mode: Mode, replace: Sanitizer, c: Invocation): Outcome
    requires IsIterationOrder(c.call.TagsOf(), c.order)
  {
    var rs := ValidateStats(c.call.name, c.call.TagsOf(), replace, c.order);
    Outcome(Proxy(mode, c.call, rs), Emit(mode, rs).panicked)
  }

  /** A sequence of calls on one store; a panic ends the session. */
  function Session(mode: Mode, replace: Sanitizer, calls: seq<Invocation>): seq<Event>
    requires WellOrdered(calls)
    decreases |calls|
  {
    if |calls| == 0 then []
    else
      var step := Step(mode, replace, calls[0]);
      if step.panicked then step.events
      else step.events + Session(mode, replace, calls[1..])
  }

  /** With a test context one call never panics and reaches the wrapped store as its delegation and flush. */
  lemma StepContinues(mode: Mode, replace: Sanitizer, c: Invocation)
    requires IsIterationOrder(c.call.TagsOf(), c.order)
    requires mode != NoContext
    ensures !Step(mode, replace, c).panicked
    ensures Step(mode, replace, c).events == Handle(mode, replace, c.call, c.order)
    ensures Observable(Step(mode, replace, c).events) == [Delegated(c.call), Flushed]
  {
    EmitContinues(mode, ValidateStats(c.call.name, c.call.TagsOf(), replace, c.order));
    DelegatesUnchanged(mode, replace, c.call, c.order);
  }

  /** The delegation and flush of each call, in call order. */
  function Delegations(calls: seq<Invocation>): (out: seq<Event>)
    ensures |out| == 2 * |calls|
    decreases |calls|
  {
    if |calls| == 0 then [] else [Delegated(calls[0].call), Flushed] + Delegations(calls[1..])
  }

  /**
   The store keeps no validation state: with a test context, the wrapped
   store sees every call of a session, in order, each once and each
   followed by one flush, whatever earlier calls reported.
   */
  lemma {:induction false} SessionDelegatesEach(mode: Mode, replace: Sanitizer, calls: seq<Invocation>)
    requires WellOrdered(calls)
    requires mode != NoContext
    ensures Observable(Session(mode, replace, calls)) == Delegations(calls)
    decreases |calls|
  {
    if |calls| > 0 {
      var step := Step(mode, replace, calls[0]);
      StepContinues(mode, replace, calls[0]);
      SessionDelegatesEach(mode, replace, calls[1..]);
      ObservableAppend(step.events, Session(mode, replace, calls[1..]));
    }
  }

  /**
   Validation keeps no memory between calls: making the same valid call
   twice, under any mode, reports nothing and delegates and flushes twice.
   */
  lemma RepeatedValidCall(mode: Mode, replace: Sanitizer, c: Invocation)
    requires IsIterationOrder(c.call.TagsOf(), c.order)
    requires ValidateStats(c.call.name, c.call.TagsOf(), replace, c.order) == []
    ensures WellOrdered([c, c])
    ensures Session(mode, replace, [c, c]) == [Delegated(c.call), Flushed, Delegated(c.call), Flushed]
  {
    var once := [Delegated(c.call), Flushed];
    assert Step(mode, replace, c) == Outcome(once, false);
    assert [c, c][1..] == [c];
    assert [c][1..] == [];
    assert Session(mode, replace, [c]) == once;
  }

  /** "request count" */
  const RequestCount: Bytes := [0x72, 0x65, 0x71, 0x75, 0x65, 0x73, 0x74, 0x20, 0x63, 0x6F, 0x75, 0x6E, 0x74]
  /** "requests" */
  const Requests: Bytes := [0x72, 0x65, 0x71, 0x75, 0x65, 0x73, 0x74, 0x73]
  /** "method" */
  const Method: Bytes := [0x6D, 0x65, 0x74, 0x68, 0x6F, 0x64]
  /** "GET " */
  const GetSpace: Bytes := [0x47, 0x45, 0x54, 0x20]

  /**
   "request count" is rejected for its space; with `UntaggedCall`, a counter
   of that name fails the test once, for whitespace, and is still created.
   */
  lemma RequestCountVerdict()
    ensures ValidateStat(RequestCount) == Some(Whitespace(0x20))
  {
    AsciiVerdict(RequestCount);
  }

  lemma GetSpaceVerdict()
    ensures ValidateStat(GetSpace) == Some(Whitespace(0x20))
  {
    AsciiVerdict(GetSpace);
  }

  lemma RequestsVerdict()
    ensures ValidateStat(Requests) == None
  {
    AsciiVerdict(Requests);
  }

  lemma MethodVerdict()
    ensures ValidateStat(Method) == None
  {
    AsciiVerdict(Method);
  }

  /**
   Under a failing-test context an untagged call fails the test at most once,
   for its name, and is delegated and flushed either way.
   */
  lemma UntaggedCall(replace: Sanitizer, call: Call)
    requires call.Untagged()
    ensures IsIterationOrder(call.TagsOf(), [])
    ensures Handle(FailTest, replace, call, []) ==
      (match ValidateStat(call.name) case None => [] case Some(e) => [Reported(Failed(BadName(e)))])
      + [Delegated(call), Flushed]
  {
    var rs := ValidateStats(call.name, call.TagsOf(), replace, []);
    assert rs == NameReports(call.name);
    assert Emit(FailTest, rs).events ==
      (match ValidateStat(call.name) case None => [] case Some(e) => [Reported(Failed(BadName(e)))]) by {
      if rs != [] { assert rs[1..] == []; }
    }
  }

  /**
   A tagged counter with a valid name and one tag with a valid key: the test
   fails once for the value if `validateStat` rejects it, once more if the
   sanitizer changes it, and the counter is created either way.
   */
  lemma OneTagCounter(replace: Sanitizer, name: Bytes, k: Bytes, v: Bytes)
    requires ValidateStat(name) == None && ValidateStat(k) == None
    ensures IsIterationOrder(map[k := v], [k])
    ensures Handle(FailTest, replace, NewCounterWithTags(name, map[k := v]), [k]) ==
      (match ValidateStat(v) case None => [] case Some(e) => [Reported(Failed(BadValue(k, e)))])
      + (if replace(v) != v then [Reported(Failed(Unsanitized(k, v, replace(v))))] else [])
      + [Delegated(NewCounterWithTags(name, map[k := v])), Flushed]
  {
    var tags := map[k := v];
    var call := NewCounterWithTags(name, tags);
    assert [k][1..] == [];
    var a: seq<Report> := match ValidateStat(v) case None => [] case Some(e) => [BadValue(k, e)];
    var b: seq<Report> := if replace(v) != v then [Unsanitized(k, v, replace(v))] else [];
    var rs := ValidateStats(name, tags, replace, [k]);
    assert rs == a + b;
    EmitSplit(FailTest, a, b);
    EmitContinues(FailTest, rs);
    assert Emit(FailTest, a).events == (match ValidateStat(v) case None => [] case Some(e) => [Reported(Failed(BadValue(k, e)))]) by {
      if a != [] { assert a[1..] == []; }
    }
    assert Emit(FailTest, b).events == (if replace(v) != v then [Reported(Failed(Unsanitized(k, v, replace(v))))] else []) by {
      if b != [] { assert b[1..] == []; }
    }
  }

  /** Two runs of reports back to back, under a mode that does not panic. */
  lemma {:induction false} EmitSplit(mode: Mode, a: seq<Report>, b: seq<Report>)
    requires mode != NoContext
    ensures Emit(mode, a + b).events == Emit(mode, a).events + Emit(mode, b).events
    decreases |a|
  {
    if |a| == 0 {
      assert a + b == b;
    } else {
      assert a + b == [a[0]] + (a[1..] + b);
      assert a == [a[0]] + a[1..];
      EmitCons(mode, a[0], a[1..] + b);
      EmitCons(mode, a[0], a[1..]);
      EmitSplit(mode, a[1..], b);
    }
  }

  /** The events of one more report in front, under a mode that does not panic. */
  lemma EmitCons(mode: Mode, r: Report, rs: seq<Report>)
    requires mode != NoContext
    ensures Emit(mode, [r] + rs).events ==
      (if mode == IgnoreErrors then [] else [Reported(Errorf(mode, r))]) + Emit(mode, rs).events
  {
    assert ([r] + rs)[1..] == rs;
  }

  /**
   A tag value with a trailing space fails the test for whitespace under its
   key, and once more as unsanitized exactly when the sanitizer changes it;
   the counter is still created with the tags unchanged.
   */
  lemma TagValueWithSpace(replace: Sanitizer)
    ensures IsIterationOrder(map[Method := GetSpace], [Method])
    ensures Handle(FailTest, replace, NewCounterWithTags(Requests, map[Method := GetSpace]), [Method]) ==
      [Reported(Failed(BadValue(Method, Whitespace(0x20))))]
      + (if replace(GetSpace) != GetSpace then [Reported(Failed(Unsanitized(Method, GetSpace, replace(GetSpace))))] else [])
      + [Delegated(NewCounterWithTags(Requests, map[Method := GetSpace])), Flushed]
  {
    GetSpaceVerdict();
    RequestsVerdict();
    MethodVerdict();
    OneTagCounter(replace, Requests, Method, GetSpace);
  }
}
