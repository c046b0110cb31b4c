/**
  The life of a GTK dialog: extending the application's dialog object with toolkit data
  and toolkit property functions, setting it up, running it, and taking the extension
  off again. Everything that is decided elsewhere (the widget tree, the application's
  signal handlers, the user) is a value of type Scenario.
 */
module DialogLifecycle {
  import opened Basics
  import opened CText

  /** The four property functions of a dialog, as tokens. */
  datatype Functions = Functions(setInt: nat, getInt: nat, setChar: nat, getChar: nat)

  /** The functions that the GTK backend installs. */
  const GTK: Functions := Functions(1, 2, 3, 4)

  /** The extension: the functions it replaced, the main window, and the result of the run. */
  datatype Extension = Extension(saved: Functions, hasMainWidget: bool, response: int)

  /** What the calls work on; the log holds the effects, oldest first. */
  datatype State = State(functions: Functions, extension: Option<Extension>, log: seq<Event>)

  datatype Event = Extended | Unextended | InitSignal | Shown | Ran | Hidden | FiniSignal | Aborted

  /** What the outside world does in one life of a dialog. */
  datatype Scenario = Scenario(
    hasTree: bool, hasRoot: bool,  // the dialog has a widget tree, and the tree a widget
    setupResult: int,              // SetupTree; on success the root is a window
    initResult: int,               // the handlers of the init signal
    response: int,                 // what the run of the dialog ends with
    finiResult: int)               // the handlers of the fini signal

  /** The entry points. A run that does not wait for the end need not be left by the user. */
  datatype Call = OpenCall(s: Scenario) | RunCall(left: Option<int>) | CloseCall(finiResult: int)

  /** The calls that the asserts of the source let through. */
  predicate Allowed(st: State, c: Call) {
    if c.OpenCall? then st.extension.None? else st.extension.Some?
  }

  /** Whether the dialog can be opened, and what OpenDialog returns. */
  function OpenResult(s: Scenario): int {
    if !s.hasTree || !s.hasRoot then ERROR_NOT_FOUND
    else if s.setupResult < 0 then s.setupResult
    else if s.initResult < 0 then s.initResult
    else 0
  }

  function OpenLog(s: Scenario): seq<Event> {
    if !s.hasTree || !s.hasRoot || s.setupResult < 0 then [Extended, Unextended]
    else if s.initResult < 0 then [Extended, InitSignal, Unextended]
    else [Extended, InitSignal, Shown]
  }

  function Step(st: State, c: Call): State
    requires Allowed(st, c)
  {
    if c.OpenCall? then
      var log := st.log + OpenLog(c.s);
      if OpenResult(c.s) < 0 then st.(log := log) else State(GTK, Some(Extension(st.functions, true, 0)), log)
    else if !st.extension.value.hasMainWidget then
      State(st.extension.value.saved, None, st.log + [Aborted, Unextended])
    else if c.CloseCall? then
      State(st.extension.value.saved, None, st.log + [Hidden, FiniSignal, Unextended])
    else
      var x := st.extension.value;
      State(st.functions, Some(if c.left.Some? then x.(response := c.left.value) else x), st.log + [Ran])
  }

  class Dialog {
    var functions: Functions
    var extension: Option<Extension>
    var log: seq<Event>

    constructor (functions: Functions)
      ensures this.functions == functions && extension == None && log == []
    {
      this.functions, extension, log := functions, None, [];
    }

    function Current(): State
      reads this
    {
      State(functions, extension, log)
    }

    method Extend()
      requires extension.None?
      modifies this
      ensures extension == Some(Extension(old(functions), false, 0)) && functions == GTK
      ensures log == old(log) + [Extended]
    {
      var saved := functions;
      functions := functions.(setInt := GTK.setInt);
      functions := functions.(getInt := GTK.getInt);
      functions := functions.(setChar := GTK.setChar);
      functions := functions.(getChar := GTK.getChar);
      extension := Some(Extension(saved, false, 0));
      log := log + [Extended];
    }

    method Unextend()
      requires extension.Some?
      modifies this
      ensures extension == None && functions == old(extension.value.saved)
      ensures log == old(log) + [Unextended]
    {
      var saved := extension.value.saved;
      functions := functions.(setInt := saved.setInt);
      functions := functions.(getInt := saved.getInt);
      functions := functions.(setChar := saved.setChar);
      functions := functions.(getChar := saved.getChar);
      extension := None;
      log := log + [Unextended];
    }

    method Setup(s: Scenario) returns (rv: int)
      requires extension.Some?
      modifies this`extension
      ensures rv == if !s.hasTree || !s.hasRoot then ERROR_NOT_FOUND else if s.setupResult < 0 then s.setupResult else 0
      ensures extension == if rv < 0 then old(extension) else Some(old(extension).value.(hasMainWidget := true))
    {
      if !s.hasTree || !s.hasRoot {
        return ERROR_NOT_FOUND;
      }
      if s.setupResult < 0 {
        return s.setupResult;
      }
      extension := Some(extension.value.(hasMainWidget := true));
      rv := 0;
    }

    method Open(s: Scenario) returns (rv: int)
      requires extension.None?
      modifies this
      ensures Current() == Step(old(Current()), OpenCall(s)) && rv == OpenResult(s)
      ensures !s.hasTree || !s.hasRoot ==> rv == ERROR_NOT_FOUND && log == old(log) + [Extended, Unextended]
      ensures s.hasTree && s.hasRoot && s.setupResult < 0 ==>
        rv == s.setupResult && log == old(log) + [Extended, Unextended]
      ensures s.hasTree && s.hasRoot && s.setupResult >= 0 && s.initResult < 0 ==>
        rv == s.initResult && log == old(log) + [Extended, InitSignal, Unextended]
      ensures s.hasTree && s.hasRoot && s.setupResult >= 0 && s.initResult >= 0 ==>
        rv == 0 && log == old(log) + [Extended, InitSignal, Shown]
      ensures rv < 0 ==> extension == None && functions == old(functions)
      ensures rv >= 0 ==> extension == Some(Extension(old(functions), true, 0)) && functions == GTK
    {
      Extend();
      rv := Setup(s);
      if rv < 0 {
        Unextend();
        return;
      }
      if !extension.value.hasMainWidget {
        assert false;  // a successful Setup has stored the window
      }
      log := log + [InitSignal];
      if s.initResult < 0 {
        Unextend();
        return s.initResult;
      }
      log := log + [Shown];
      rv := 0;
    }

    /** The response of this run, or the one of an earlier run if the user has not left this one. */
    method RunDialog(left: Option<int>) returns (rv: int)
      requires extension.Some?
      modifies this
      ensures Current() == Step(old(Current()), RunCall(left))
      ensures rv == if extension.None? then ERROR_INVALID else extension.value.response
      ensures old(extension).value.hasMainWidget ==> extension.Some? && log == old(log) + [Ran]
      ensures old(extension).value.hasMainWidget && left.Some? ==> rv == left.value
      ensures old(extension).value.hasMainWidget && left.None? ==> rv == old(extension).value.response
    {
      if !extension.value.hasMainWidget {
        log := log + [Aborted];
        Unextend();
        return ERROR_INVALID;
      }
      if left.Some? {
        extension := Some(extension.value.(response := left.value));
      }
      log := log + [Ran];
      rv := extension.value.response;
    }

    method Close(finiResult: int) returns (rv: int)
      requires extension.Some?
      modifies this
      ensures Current() == Step(old(Current()), CloseCall(finiResult))
      ensures extension == None && functions == old(extension).value.saved
      ensures rv == if !old(extension).value.hasMainWidget then ERROR_INVALID else if finiResult < 0 then finiResult else 0
      ensures old(extension).value.hasMainWidget ==> log == old(log) + [Hidden, FiniSignal, Unextended]
    {
      if !extension.value.hasMainWidget {
        log := log + [Aborted];
        Unextend();
        return ERROR_INVALID;
      }
      log := log + [Hidden];
      log := log + [FiniSignal];
      Unextend();
      rv := if finiResult < 0 then finiResult else 0;
    }

    /** ExecDialog: whatever happens inside, the dialog leaves it as it came. */
    method Exec(s: Scenario) returns (rv: int)
      requires extension.None?
      modifies this
      ensures extension == None && functions == old(functions)
      ensures rv == if OpenResult(s) < 0 then OpenResult(s) else s.response
      ensures Legal(old(Current()), ExecCalls(s)) && Current() == Play(old(Current()), ExecCalls(s))
    {
      PlayExec(Current(), s);
      rv := Open(s);
      if rv < 0 {
        return;
      }
      rv := RunDialog(Some(s.response));
      var closed := Close(s.finiResult);
    }
  }

  // ---------- any series of calls ----------

  predicate Legal(st: State, calls: seq<Call>)
    decreases |calls|
  {
    calls == [] || (Allowed(st, calls[0]) && Legal(Step(st, calls[0]), calls[1..]))
  }

  function Play(st: State, calls: seq<Call>): State
    requires Legal(st, calls)
    decreases |calls|
  {
    if calls == [] then st else Play(Step(st, calls[0]), calls[1..])
  }

  /** The calls that ExecDialog makes. */
  function ExecCalls(s: Scenario): seq<Call> {
    [OpenCall(s)] + if OpenResult(s) < 0 then [] else [RunCall(Some(s.response)), CloseCall(s.finiResult)]
  }

  lemma PlayExec(st: State, s: Scenario)
    requires st.extension.None?
    ensures var open := Step(st, OpenCall(s));
      && Legal(st, ExecCalls(s))
      && Play(st, ExecCalls(s)) == if OpenResult(s) < 0 then open
           else Step(Step(open, RunCall(Some(s.response))), CloseCall(s.finiResult))
  {
    var open := Step(st, OpenCall(s));
    if OpenResult(s) < 0 {
      PlayFirst(st, OpenCall(s), []);
    } else {
      var run, close := RunCall(Some(s.response)), CloseCall(s.finiResult);
      PlayFirst(Step(open, run), close, []);
      PlayFirst(open, run, [close]);
      PlayFirst(st, OpenCall(s), [run, close]);
      assert [run] + [close] == [run, close];
    }
  }

  lemma PlayFirst(st: State, c: Call, calls: seq<Call>)
    requires Allowed(st, c) && Legal(Step(st, c), calls)
    ensures Legal(st, [c] + calls) && Play(st, [c] + calls) == Play(Step(st, c), calls)
  {
    assert ([c] + calls)[1..] == calls;
  }

  // ---------- the order of events ----------

  /** Where a dialog stands between two effects. */
  datatype Phase = Closed | Built | Started | Showing | Hiding | Ending | Broken

  /** Each effect has its place in the life of a dialog; only runs repeat, and only a dialog that is not shown yet ends early. */
  function Advance(p: Phase, e: Event): Phase {
    match (p, e)
    case (Closed, Extended) => Built
    case (Built, InitSignal) => Started
    case (Started, Shown) => Showing
    case (Showing, Ran) => Showing
    case (Showing, Hidden) => Hiding
    case (Hiding, FiniSignal) => Ending
    case (Built, Unextended) => Closed
    case (Started, Unextended) => Closed
    case (Ending, Unextended) => Closed
    case _ => Broken
  }

  function PhaseAfter(p: Phase, events: seq<Event>): Phase
    decreases |events|
  {
    if events == [] then p else PhaseAfter(Advance(p, events[0]), events[1..])
  }

  lemma {:induction false} PhaseConcat(p: Phase, a: seq<Event>, b: seq<Event>)
    ensures PhaseAfter(p, a + b) == PhaseAfter(PhaseAfter(p, a), b)
    decreases |a|
  {
    if a == [] {
      assert a + b == b;
    } else {
      assert (a + b)[1..] == a[1..] + b;
      PhaseConcat(Advance(p, a[0]), a[1..], b);
    }
  }

  lemma PhaseOfThree(p: Phase, a: Event, b: Event, c: Event)
    ensures PhaseAfter(p, [a]) == Advance(p, a)
    ensures PhaseAfter(p, [a, b]) == Advance(Advance(p, a), b)
    ensures PhaseAfter(p, [a, b, c]) == Advance(Advance(Advance(p, a), b), c)
  {
    assert [a][1..] == [] && [a, b][1..] == [b] && [b][1..] == [];
    assert [a, b, c][1..] == [b, c] && [b, c][1..] == [c] && [c][1..] == [];
    assert PhaseAfter(Advance(p, a), [b]) == Advance(Advance(p, a), b);
    assert PhaseAfter(Advance(Advance(p, a), b), [c]) == Advance(Advance(Advance(p, a), b), c);
    assert PhaseAfter(Advance(p, a), [b, c]) == PhaseAfter(Advance(Advance(p, a), b), [c]);
  }

  /** Between two calls: closed with its own functions f, or shown with those of GTK and f kept. */
  ghost predicate AtRest(st: State, f: Functions) {
    match st.extension
    case None => st.functions == f && PhaseAfter(Closed, st.log) == Closed
    case Some(x) => st.functions == GTK && x.saved == f && x.hasMainWidget && PhaseAfter(Closed, st.log) == Showing
  }

  lemma StepRests(st: State, c: Call, f: Functions)
    requires AtRest(st, f) && Allowed(st, c)
    ensures AtRest(Step(st, c), f)
  {
    hide PhaseAfter;
    PhaseOfThree(Closed, Extended, Unextended, Shown);
    PhaseOfThree(Closed, Extended, InitSignal, Unextended);
    PhaseOfThree(Closed, Extended, InitSignal, Shown);
    PhaseOfThree(Showing, Ran, Ran, Ran);
    PhaseOfThree(Showing, Hidden, FiniSignal, Unextended);
    PhaseConcat(Closed, st.log, if c.OpenCall? then OpenLog(c.s) else if c.RunCall? then [Ran] else [Hidden, FiniSignal, Unextended]);
  }

  /** The response that a run returns after the calls: what the last run that was left was left with, since the dialog was open. */
  function LastLeft(calls: seq<Call>, r: int): int
    decreases |calls|
  {
    if calls == [] then r
    else match calls[0]
      case OpenCall(_) => LastLeft(calls[1..], 0)
      case RunCall(left) => LastLeft(calls[1..], if left.Some? then left.value else r)
      case CloseCall(_) => LastLeft(calls[1..], r)
  }

  ghost predicate Responds(st: State, r: int) {
    st.extension.Some? ==> st.extension.value.response == r
  }

  lemma {:induction false} PlayRests(st: State, calls: seq<Call>, f: Functions, r: int)
    requires AtRest(st, f) && Responds(st, r) && Legal(st, calls)
    ensures AtRest(Play(st, calls), f) && Responds(Play(st, calls), LastLeft(calls, r))
    decreases |calls|
  {
    if calls != [] {
      StepRests(st, calls[0], f);
      hide AtRest;
      var r' := match calls[0]
        case OpenCall(_) => 0
        case RunCall(left) => if left.Some? then left.value else r
        case CloseCall(_) => r;
      PlayRests(Step(st, calls[0]), calls[1..], f, r');
    }
  }

  /**
    For every legal series of calls to Open, Run and Close and every outcome of each: all effects
    stand in the order of a dialog's life, no call finds the window missing, the dialog is either
    closed with its own functions or shown, and the response is the one last given.
   */
  lemma LivesAreOrderly(f: Functions, calls: seq<Call>)
    requires Legal(State(f, None, []), calls)
    ensures var st := Play(State(f, None, []), calls);
      && AtRest(st, f)
      && Aborted !in st.log
      && multiset(st.log)[Extended] == multiset(st.log)[Unextended] + (if st.extension.Some? then 1 else 0)
      && (st.extension.Some? ==> st.extension.value.response == LastLeft(calls, 0))
  {
    var st := Play(State(f, None, []), calls);
    PlayRests(State(f, None, []), calls, f, 0);
    ExtendedAndTakenOff(Closed, st.log);
    if Aborted in st.log {
      BrokenStays(Closed, st.log);
    }
  }

  /** A log with an abort, or from a broken phase, ends broken. */
  lemma {:induction false} BrokenStays(p: Phase, events: seq<Event>)
    requires p.Broken? || Aborted in events
    ensures PhaseAfter(p, events).Broken?
    decreases |events|
  {
    if events != [] {
      BrokenStays(Advance(p, events[0]), events[1..]);
    }
  }

  /** With the effects in order, every extension is taken off again but for the one of a dialog that is not closed. */
  lemma {:induction false} ExtendedAndTakenOff(p: Phase, events: seq<Event>)
    requires !PhaseAfter(p, events).Broken?
    ensures multiset(events)[Extended] + (if p.Closed? then 0 else 1)
         == multiset(events)[Unextended] + (if PhaseAfter(p, events).Closed? then 0 else 1)
    decreases |events|
  {
    if events != [] {
      var q := Advance(p, events[0]);
      if q.Broken? {
        BrokenStays(q, events[1..]);
      } else {
        ExtendedAndTakenOff(q, events[1..]);
        assert events == [events[0]] + events[1..];
      }
    }
  }
}
