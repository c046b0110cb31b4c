/**
  GWEN_Init and GWEN_Fini: a use count over a list of modules that are set up in one order
  and torn down in another. Module set-up may fail half-way; nothing is undone then. The
  effects are kept as a log of module events, and what the log contains after any sequence
  of calls is proved.
 */
module GwenInit {

  datatype Module = Logger | Gnutls | Errors | PathManager | I18N | InetAddr | Socket | LibLoader
                  | Crypt3 | Process | Plugin | DBIO | ConfigMgr | CryptToken | Gui

  const SETUP: seq<Module> :=
    [Logger, Gnutls, Errors, PathManager, I18N, InetAddr, Socket, LibLoader,
     Crypt3, Process, Plugin, DBIO, ConfigMgr, CryptToken, Gui]

  const TEARDOWN: seq<Module> :=
    [Gui, CryptToken, ConfigMgr, DBIO, Plugin, Process, Crypt3, LibLoader,
     Socket, InetAddr, I18N, PathManager, Errors, Logger, Gnutls]

  /** The set-up functions of the other two return nothing or are not looked at. */
  predicate SetupCanFail(m: Module) {
    m != Gnutls && m != Errors
  }

  predicate TeardownCanFail(m: Module) {
    m != Gnutls && m != Errors && m != Gui
  }

  /** The error codes that module functions return during one call; modules without one succeed. */
  type Outcome = map<Module, int>

  predicate SetupFails(errors: Outcome, m: Module) {
    SetupCanFail(m) && m in errors && errors[m] != 0
  }

  predicate TeardownFails(errors: Outcome, m: Module) {
    TeardownCanFail(m) && m in errors && errors[m] != 0
  }

  datatype Event = Up(m: Module) | Down(m: Module)

  const COUNTER_LIMIT: nat := 0x1_0000_0000  // unsigned int wraps here

  datatype State = State(counter: nat, log: seq<Event>)

  const START: State := State(0, [])

  /** How many modules are set up before the first failure; all of them if none fails. */
  function Reached(errors: Outcome, ms: seq<Module>): (k: nat)
    ensures k <= |ms|
    ensures forall i :: 0 <= i < k ==> !SetupFails(errors, ms[i])
    ensures k < |ms| ==> SetupFails(errors, ms[k])
  {
    if ms == [] || SetupFails(errors, ms[0]) then 0 else 1 + Reached(errors, ms[1..])
  }

  function Ups(ms: seq<Module>): (r: seq<Event>)
    ensures |r| == |ms| && forall i :: 0 <= i < |r| ==> r[i] == Up(ms[i])
  {
    seq(|ms|, i requires 0 <= i < |ms| => Up(ms[i]))
  }

  function Downs(ms: seq<Module>): (r: seq<Event>)
    ensures |r| == |ms| && forall i :: 0 <= i < |r| ==> r[i] == Down(ms[i])
  {
    seq(|ms|, i requires 0 <= i < |ms| => Down(ms[i]))
  }

  function Inc(counter: nat): nat {
    (counter + 1) % COUNTER_LIMIT
  }

  function Init(st: State, errors: Outcome): State {
    if st.counter > 0 then st.(counter := Inc(st.counter))
    else
      var k := Reached(errors, SETUP);
      State(if k == |SETUP| then Inc(st.counter) else 0, st.log + Ups(SETUP[..k]))
  }

  function Fini(st: State): State {
    if st.counter == 0 then st
    else State(st.counter - 1, if st.counter == 1 then st.log + Downs(TEARDOWN) else st.log)
  }

  function FiniForced(st: State): State {
    Fini(if st.counter > 0 then st.(counter := 1) else st)
  }

  datatype Call = CallInit(errors: Outcome) | CallFini | CallFiniForced

  function Step(st: State, c: Call): State {
    match c
    case CallInit(errors) => Init(st, errors)
    case CallFini => Fini(st)
    case CallFiniForced => FiniForced(st)
  }

  function Run(st: State, calls: seq<Call>): State
    decreases |calls|
  {
    if calls == [] then st else Step(Run(st, calls[..|calls| - 1]), calls[|calls| - 1])
  }

  // ---------- counting ----------

  function Count(log: seq<Event>, e: Event): nat {
    if log == [] then 0 else Count(log[..|log| - 1], e) + if log[|log| - 1] == e then 1 else 0
  }

  function Balance(log: seq<Event>, m: Module): int {
    Count(log, Up(m)) - Count(log, Down(m))
  }

  lemma {:induction false} CountConcat(a: seq<Event>, b: seq<Event>, e: Event)
    ensures Count(a + b, e) == Count(a, e) + Count(b, e)
    decreases |b|
  {
    if b == [] {
      assert a + b == a;
    } else {
      assert (a + b)[..|a + b| - 1] == a + b[..|b| - 1];
      CountConcat(a, b[..|b| - 1], e);
    }
  }

  lemma {:induction false} CountAbsent(log: seq<Event>, e: Event)
    requires e !in log
    ensures Count(log, e) == 0
    decreases |log|
  {
    if log != [] {
      CountAbsent(log[..|log| - 1], e);
    }
  }

  /** In a log without repetitions an event that occurs occurs once. */
  lemma {:induction false} CountOnce(log: seq<Event>, e: Event, i: nat)
    requires i < |log| && log[i] == e && forall j, k :: 0 <= j < k < |log| ==> log[j] != log[k]
    ensures Count(log, e) == 1
    decreases |log|
  {
    var front := log[..|log| - 1];
    if i == |log| - 1 {
      CountAbsent(front, e);
    } else {
      CountOnce(front, e, i);
    }
  }

  /** The place of a module in the set-up order. */
  function SetupIndex(m: Module): nat {
    match m
    case Logger => 0 case Gnutls => 1 case Errors => 2 case PathManager => 3 case I18N => 4
    case InetAddr => 5 case Socket => 6 case LibLoader => 7 case Crypt3 => 8 case Process => 9
    case Plugin => 10 case DBIO => 11 case ConfigMgr => 12 case CryptToken => 13 case Gui => 14
  }

  function TeardownIndex(m: Module): nat {
    match m
    case Gnutls => 14
    case Logger => 13
    case _ => 14 - SetupIndex(m)
  }

  lemma IndexIs(m: Module)
    ensures SetupIndex(m) < |SETUP| && SETUP[SetupIndex(m)] == m
    ensures TeardownIndex(m) < |TEARDOWN| && TEARDOWN[TeardownIndex(m)] == m
  {
  }

  lemma SetupDistinct()
    ensures forall i, j :: 0 <= i < j < |SETUP| ==> SETUP[i] != SETUP[j]
  {
    assert forall i :: 0 <= i < |SETUP| ==> SetupIndex(SETUP[i]) == i;
  }

  lemma TeardownDistinct()
    ensures forall i, j :: 0 <= i < j < |TEARDOWN| ==> TEARDOWN[i] != TEARDOWN[j]
  {
    assert forall i :: 0 <= i < |TEARDOWN| ==> TeardownIndex(TEARDOWN[i]) == i;
  }

  /** The order of set-up; teardown reverses it, except that gnutls outlives the Logger. */
  lemma TeardownReverses()
    ensures SETUP[..4] == [Logger, Gnutls, Errors, PathManager]
    ensures SETUP[4..9] == [I18N, InetAddr, Socket, LibLoader, Crypt3]
    ensures SETUP[9..] == [Process, Plugin, DBIO, ConfigMgr, CryptToken, Gui]
    ensures |TEARDOWN| == |SETUP|
    ensures forall i :: 2 <= i < |SETUP| ==> TEARDOWN[|SETUP| - 1 - i] == SETUP[i]
    ensures TEARDOWN[|SETUP| - 2..] == SETUP[..2] == [Logger, Gnutls]
  {
  }

  lemma BalanceOfUps(k: nat, m: Module)
    requires k <= |SETUP|
    ensures Balance(Ups(SETUP[..k]), m) == if SetupIndex(m) < k then 1 else 0
  {
    var log := Ups(SETUP[..k]);
    IndexIs(m);
    SetupDistinct();
    CountAbsent(log, Down(m));
    if SetupIndex(m) < k {
      CountOnce(log, Up(m), SetupIndex(m));
    } else {
      CountAbsent(log, Up(m));
    }
  }

  lemma BalanceOfDowns(m: Module)
    ensures Balance(Downs(TEARDOWN), m) == -1
  {
    var log := Downs(TEARDOWN);
    IndexIs(m);
    TeardownDistinct();
    CountAbsent(log, Up(m));
    CountOnce(log, Down(m), TeardownIndex(m));
  }

  lemma BalanceConcat(a: seq<Event>, b: seq<Event>, m: Module)
    ensures Balance(a + b, m) == Balance(a, m) + Balance(b, m)
  {
    CountConcat(a, b, Up(m));
    CountConcat(a, b, Down(m));
  }

  // ---------- conservation ----------

  /** An Init call that really sets modules up, gets as far as m, and fails. */
  predicate Leaks(st: State, c: Call, m: Module) {
    && c.CallInit? && st.counter == 0
    && SetupIndex(m) < Reached(c.errors, SETUP) < |SETUP|
  }

  /** How many calls of the run have done so. */
  function Leaked(calls: seq<Call>, m: Module): nat
    decreases |calls|
  {
    if calls == [] then 0
    else
      var front := calls[..|calls| - 1];
      Leaked(front, m) + if Leaks(Run(START, front), calls[|calls| - 1], m) then 1 else 0
  }

  function Held(st: State): nat {
    if st.counter > 0 then 1 else 0
  }

  /** An Init call that takes the counter over its limit, back to zero. */
  predicate Wraps(st: State, c: Call) {
    c.CallInit? && st.counter == COUNTER_LIMIT - 1
  }

  /** How many calls of the run have done that. */
  function Wrapped(calls: seq<Call>): nat
    decreases |calls|
  {
    if calls == [] then 0
    else
      var front := calls[..|calls| - 1];
      Wrapped(front) + if Wraps(Run(START, front), calls[|calls| - 1]) then 1 else 0
  }

  lemma StepBalance(st: State, c: Call, m: Module)
    requires st.counter < COUNTER_LIMIT
    ensures Balance(Step(st, c).log, m) - Held(Step(st, c)) == Balance(st.log, m) - Held(st)
      + (if Leaks(st, c, m) then 1 else 0) + (if Wraps(st, c) then 1 else 0)
    ensures Step(st, c).counter < COUNTER_LIMIT
  {
    hide Balance;
    match c {
      case CallInit(errors) =>
        if st.counter == 0 {
          var k := Reached(errors, SETUP);
          BalanceConcat(st.log, Ups(SETUP[..k]), m);
          BalanceOfUps(k, m);
        }
      case _ =>
        BalanceConcat(st.log, Downs(TEARDOWN), m);
        BalanceOfDowns(m);
    }
  }

  /** The law for every sequence of calls: a module is set up once more than it was torn down while the library is in
      use, plus once for every failed Init that had reached it, plus once for every time the counter wrapped. */
  lemma {:induction false} Conservation(calls: seq<Call>, m: Module)
    ensures Balance(Run(START, calls).log, m) == Held(Run(START, calls)) + Leaked(calls, m) + Wrapped(calls)
    ensures Run(START, calls).counter < COUNTER_LIMIT
    decreases |calls|
  {
    if calls != [] {
      hide Step, Balance, Leaks, Wraps;
      var front := calls[..|calls| - 1];
      Conservation(front, m);
      StepBalance(Run(START, front), calls[|calls| - 1], m);
    } else {
      assert Run(START, calls) == START;
    }
  }

  /** Set-ups and teardowns balance as the use count says, up to the leaks of failed calls, iff the counter never wrapped. */
  lemma ConservedIff(calls: seq<Call>, m: Module)
    ensures Balance(Run(START, calls).log, m) == Held(Run(START, calls)) + Leaked(calls, m) <==> Wrapped(calls) == 0
  {
    Conservation(calls, m);
  }

  function Inits(n: nat): seq<Call> {
    seq(n, _ => CallInit(map[]))
  }

  lemma {:induction false} CountingUp(n: nat)
    requires 0 < n < COUNTER_LIMIT
    ensures Run(START, Inits(n)) == State(n, Ups(SETUP)) && Wrapped(Inits(n)) == 0
    decreases n
  {
    var front := Inits(n)[..n - 1];
    assert front == Inits(n - 1);
    if n == 1 {
      assert Run(START, front) == START;
      FirstInit();
    } else {
      hide SETUP, Init, Ups;
      CountingUp(n - 1);
      LaterInit(n - 1, Ups(SETUP));
    }
  }

  lemma FirstInit()
    ensures Init(START, map[]) == State(1, Ups(SETUP))
  {
    assert SETUP[..|SETUP|] == SETUP;
    assert [] + Ups(SETUP) == Ups(SETUP);
  }

  lemma LaterInit(n: nat, log: seq<Event>)
    requires 0 < n < COUNTER_LIMIT - 1
    ensures Init(State(n, log), map[]) == State(n + 1, log)
  {
  }

  /** The counter can wrap: as many Inits as it counts leave every module set up and the library not in use. */
  lemma WrapReached(m: Module)
    ensures var calls := Inits(COUNTER_LIMIT);
      && Run(START, calls) == State(0, Ups(SETUP)) && Wrapped(calls) == 1
      && Balance(Run(START, calls).log, m) == 1
  {
    hide Balance, Ups, Init, SETUP;
    var calls := Inits(COUNTER_LIMIT);
    var front := calls[..COUNTER_LIMIT - 1];
    assert front == Inits(COUNTER_LIMIT - 1);
    CountingUp(COUNTER_LIMIT - 1);
    WrapStep(Ups(SETUP), map[]);
    assert Run(START, calls) == Step(Run(START, front), CallInit(map[]));
    assert Wrapped(calls) == Wrapped(front) + 1;
    AllUpBalance(m);
  }

  lemma WrapStep(log: seq<Event>, errors: Outcome)
    ensures Init(State(COUNTER_LIMIT - 1, log), errors) == State(0, log)
  {
  }

  lemma AllUpBalance(m: Module)
    ensures Balance(Ups(SETUP), m) == 1
  {
    assert SETUP[..|SETUP|] == SETUP;
    IndexIs(m);
    BalanceOfUps(|SETUP|, m);
  }

  // ---------- runs without failures ----------

  ghost predicate Succeeds(c: Call) {
    c.CallInit? ==> Reached(c.errors, SETUP) == |SETUP|
  }

  /** Full periods of use, one after the other. */
  function Periods(n: nat): seq<Event> {
    if n == 0 then [] else Periods(n - 1) + (Ups(SETUP) + Downs(TEARDOWN))
  }

  ghost predicate Regular(st: State, n: nat) {
    st.log == Periods(n) + if st.counter > 0 then Ups(SETUP) else []
  }

  lemma RegularStep(st: State, c: Call, n: nat)
    requires Regular(st, n) && Succeeds(c) && st.counter < COUNTER_LIMIT && !Wraps(st, c)
    ensures Regular(Step(st, c), n) || Regular(Step(st, c), n + 1)
  {
    hide SETUP, TEARDOWN, Reached;
    assert SETUP[..|SETUP|] == SETUP;
    if st.counter == 0 {
      assert Periods(n) + [] == Periods(n);
    } else {
      OnePeriodMore(st.log, n);
    }
  }

  lemma OnePeriodMore(log: seq<Event>, n: nat)
    requires log == Periods(n) + Ups(SETUP)
    ensures log + Downs(TEARDOWN) == Periods(n + 1) + []
  {
    hide SETUP, TEARDOWN;
    assert log + Downs(TEARDOWN) == Periods(n) + (Ups(SETUP) + Downs(TEARDOWN));
  }

  /** Without failures and wraps the log is a number of complete periods, and an open one while the library is in use. */
  lemma {:induction false} RegularRuns(calls: seq<Call>) returns (n: nat)
    requires Wrapped(calls) == 0 && forall i :: 0 <= i < |calls| ==> Succeeds(calls[i])
    ensures Regular(Run(START, calls), n)
    decreases |calls|
  {
    if calls == [] {
      n := 0;
      assert Run(START, calls) == START;
    } else {
      hide Step, Regular, Succeeds, Balance;
      var front := calls[..|calls| - 1];
      n := RegularRuns(front);
      Conservation(front, Logger);
      RegularStep(Run(START, front), calls[|calls| - 1], n);
      n := if Regular(Run(START, calls), n) then n else n + 1;
    }
  }

  lemma {:induction false} PeriodsBalance(n: nat, m: Module)
    ensures Balance(Periods(n), m) == 0
  {
    if n > 0 {
      hide Balance;
      PeriodsBalance(n - 1, m);
      AllUpBalance(m);
      BalanceOfDowns(m);
      BalanceConcat(Ups(SETUP), Downs(TEARDOWN), m);
      BalanceConcat(Periods(n - 1), Ups(SETUP) + Downs(TEARDOWN), m);
    }
  }

  lemma {:induction false} NothingLeaked(calls: seq<Call>, m: Module)
    requires forall i :: 0 <= i < |calls| ==> Succeeds(calls[i])
    ensures Leaked(calls, m) == 0
    decreases |calls|
  {
    if calls != [] {
      NothingLeaked(calls[..|calls| - 1], m);
    }
  }

  lemma RegularBalance(st: State, n: nat, m: Module)
    requires Regular(st, n)
    ensures Balance(st.log, m) == Held(st)
  {
    PeriodsBalance(n, m);
    AllUpBalance(m);
    hide Balance, SETUP;
    BalanceConcat(Periods(n), Ups(SETUP), m);
    assert Periods(n) + [] == Periods(n);
  }

  /** In a run without failures the log has this shape iff the counter never wrapped. */
  lemma RegularIff(calls: seq<Call>)
    requires forall i :: 0 <= i < |calls| ==> Succeeds(calls[i])
    ensures (exists n: nat :: Regular(Run(START, calls), n)) <==> Wrapped(calls) == 0
  {
    hide Regular, Balance, Succeeds;
    if Wrapped(calls) == 0 {
      var n := RegularRuns(calls);
    }
    forall n: nat | Regular(Run(START, calls), n)
      ensures Wrapped(calls) == 0
    {
      RegularBalance(Run(START, calls), n, Logger);
      Conservation(calls, Logger);
      NothingLeaked(calls, Logger);
    }
  }

  // ---------- use counting ----------

  /** The code that a module returns. */
  function CodeOf(errors: Outcome, m: Module): int {
    if m in errors then errors[m] else 0
  }

  /** A set-up that is looked at returns an error. */
  ghost predicate AnyFails(errors: Outcome) {
    exists m :: m != Gnutls && m != Errors && CodeOf(errors, m) != 0
  }

  /** The uses that are open after the calls: a first Init may fail, a forced Fini ends all of them, and the count is 32 bits wide. */
  ghost function Uses(calls: seq<Call>): nat
    decreases |calls|
  {
    if calls == [] then 0
    else
      var before := Uses(calls[..|calls| - 1]);
      match calls[|calls| - 1]
      case CallInit(errors) => if before == 0 && AnyFails(errors) then 0 else (before + 1) % 0x1_0000_0000
      case CallFini => if before == 0 then 0 else before - 1
      case CallFiniForced => 0
  }

  lemma ReachedAll(errors: Outcome)
    ensures Reached(errors, SETUP) == |SETUP| <==> !AnyFails(errors)
  {
    var k := Reached(errors, SETUP);
    if k < |SETUP| {
      assert CodeOf(errors, SETUP[k]) != 0;
    } else {
      forall m: Module | m != Gnutls && m != Errors
        ensures CodeOf(errors, m) == 0
      {
        IndexIs(m);
        assert !SetupFails(errors, SETUP[SetupIndex(m)]);
      }
    }
  }

  /** The counter counts the open uses, for every sequence of calls. */
  lemma {:induction false} CounterIsUses(calls: seq<Call>)
    ensures Run(START, calls).counter == Uses(calls)
    decreases |calls|
  {
    if calls == [] {
      assert Run(START, calls) == START;
    } else {
      hide Step, AnyFails;
      CounterIsUses(calls[..|calls| - 1]);
      UsesStep(Run(START, calls[..|calls| - 1]), calls[|calls| - 1]);
    }
  }

  lemma UsesStep(st: State, c: Call)
    ensures Step(st, c).counter ==
      match c
      case CallInit(errors) => (if st.counter == 0 && AnyFails(errors) then 0 else (st.counter + 1) % 0x1_0000_0000)
      case CallFini => (if st.counter == 0 then 0 else st.counter - 1)
      case CallFiniForced => 0
  {
    hide SETUP, TEARDOWN, Reached, AnyFails;
    if c.CallInit? {
      ReachedAll(c.errors);
    }
  }

  /** As long as the library stays in use, no module is touched. */
  lemma {:induction false} InUseNothingHappens(st: State, calls: seq<Call>)
    requires forall n :: 0 <= n <= |calls| ==> Run(st, calls[..n]).counter > 0
    ensures Run(st, calls).log == st.log
    decreases |calls|
  {
    if calls != [] {
      var front := calls[..|calls| - 1];
      forall n | 0 <= n <= |front|
        ensures Run(st, front[..n]).counter > 0
      {
        assert front[..n] == calls[..n];
      }
      InUseNothingHappens(st, front);
      assert front[..|front|] == front && calls[..|calls|] == calls;
      assert Run(st, front).counter > 0 && Run(st, calls).counter > 0;
    }
  }

  // ---------- which error is returned ----------

  /** k is the place of the first module, other than gnutls and the errors, whose set-up returns a code; the number of modules if none does. */
  ghost predicate FirstFailure(errors: Outcome, k: nat) {
    && k <= |SETUP|
    && (forall i :: 0 <= i < k ==> SETUP[i] == Gnutls || SETUP[i] == Errors || CodeOf(errors, SETUP[i]) == 0)
    && (k < |SETUP| ==> SETUP[k] != Gnutls && SETUP[k] != Errors && CodeOf(errors, SETUP[k]) != 0)
  }

  /** k is the place of the last module, other than gnutls, the errors and the gui, whose teardown returns a code; -1 if none does. */
  ghost predicate LastFailure(errors: Outcome, k: int) {
    && -1 <= k < |TEARDOWN|
    && (forall i :: k < i < |TEARDOWN| ==>
          TEARDOWN[i] == Gnutls || TEARDOWN[i] == Errors || TEARDOWN[i] == Gui || CodeOf(errors, TEARDOWN[i]) == 0)
    && (k >= 0 ==> TEARDOWN[k] != Gnutls && TEARDOWN[k] != Errors && TEARDOWN[k] != Gui && CodeOf(errors, TEARDOWN[k]) != 0)
  }

  lemma FirstErrorIs(errors: Outcome)
    ensures var k := Reached(errors, SETUP);
      FirstFailure(errors, k) && FirstError(errors, SETUP) == if k < |SETUP| then CodeOf(errors, SETUP[k]) else 0
  {
    hide SETUP;
    var k := Reached(errors, SETUP);
    forall i | 0 <= i < k
      ensures SETUP[i] == Gnutls || SETUP[i] == Errors || CodeOf(errors, SETUP[i]) == 0
    {
      assert !SetupFails(errors, SETUP[i]);
    }
  }

  lemma {:induction false} LastErrorFrom(errors: Outcome, n: nat) returns (k: int)
    requires n <= |TEARDOWN|
    ensures -1 <= k < n
    ensures forall i :: k < i < n ==>
      TEARDOWN[i] == Gnutls || TEARDOWN[i] == Errors || TEARDOWN[i] == Gui || CodeOf(errors, TEARDOWN[i]) == 0
    ensures k >= 0 ==> TEARDOWN[k] != Gnutls && TEARDOWN[k] != Errors && TEARDOWN[k] != Gui && CodeOf(errors, TEARDOWN[k]) != 0
    ensures LastError(errors, TEARDOWN[..n]) == if k >= 0 then CodeOf(errors, TEARDOWN[k]) else 0
  {
    hide TEARDOWN;
    if n == 0 {
      k := -1;
    } else if TeardownFails(errors, TEARDOWN[n - 1]) {
      k := n - 1;
    } else {
      k := LastErrorFrom(errors, n - 1);
      assert TEARDOWN[..n][..n - 1] == TEARDOWN[..n - 1];
    }
  }

  lemma LastErrorIs(errors: Outcome) returns (k: int)
    ensures LastFailure(errors, k) && LastError(errors, TEARDOWN) == if k >= 0 then CodeOf(errors, TEARDOWN[k]) else 0
  {
    hide TEARDOWN;
    k := LastErrorFrom(errors, |TEARDOWN|);
    assert TEARDOWN[..|TEARDOWN|] == TEARDOWN;
  }

  // ---------- the functions themselves ----------

  /** The code of the first module that fails. */
  function FirstError(errors: Outcome, ms: seq<Module>): int {
    var k := Reached(errors, ms);
    if k < |ms| then errors[ms[k]] else 0
  }

  /** The code of the last module that fails. */
  function LastError(errors: Outcome, ms: seq<Module>): int {
    if ms == [] then 0
    else
      var m := ms[|ms| - 1];
      if TeardownFails(errors, m) then errors[m] else LastError(errors, ms[..|ms| - 1])
  }

  lemma AllUp(lib: Library, errors: Outcome, base: seq<Event>)
    requires lib.UpTo(errors, base, 15)
    ensures lib.SetUpDone(errors, base, 0)
  {
  }

  lemma AllDown(lib: Library, errors: Outcome, base: seq<Event>, err: int)
    requires lib.DownTo(errors, base, err, 15)
    ensures lib.log == base + Downs(TEARDOWN) && err == LastError(errors, TEARDOWN)
  {
    assert TEARDOWN[..15] == TEARDOWN;
  }

  class Library {
    var counter: nat
    var log: seq<Event>

    constructor ()
      ensures Current() == START
    {
      counter, log := 0, [];
    }

    ghost function Current(): State
      reads this
    {
      State(counter, log)
    }

    /** The first i modules, and no more, have been set up since `base`, without an error. */
    ghost predicate UpTo(errors: Outcome, base: seq<Event>, i: nat)
      reads this
    {
      i <= Reached(errors, SETUP) && log == base + Ups(SETUP[..i])
    }

    /** The set-up that began at `base` has ended with this result. */
    ghost predicate SetUpDone(errors: Outcome, base: seq<Event>, err: int)
      reads this
    {
      && err == FirstError(errors, SETUP) && (err == 0 <==> Reached(errors, SETUP) == |SETUP|)
      && log == base + Ups(SETUP[..Reached(errors, SETUP)])
    }

    /** One module set-up function. */
    method SetUp(m: Module, errors: Outcome, ghost base: seq<Event>) returns (err: int)
      requires UpTo(errors, base, SetupIndex(m))
      modifies this`log
      ensures err != 0 ==> SetUpDone(errors, base, err)
      ensures err == 0 ==> UpTo(errors, base, SetupIndex(m) + 1)
    {
      IndexIs(m);
      hide SETUP, SetupIndex;
      if SetupFails(errors, m) {
        return errors[m];
      }
      log := log + [Up(m)];
      err := 0;
    }

    /** GWEN_Init */
    method InitLibrary(errors: Outcome) returns (err: int, ghost k: nat)
      modifies this
      ensures Current() == Init(old(Current()), errors)
      ensures old(counter) > 0 ==> err == 0 && log == old(log) && counter == (old(counter) + 1) % 0x1_0000_0000
      ensures old(counter) == 0 ==>
        && FirstFailure(errors, k) && log == old(log) + Ups(SETUP[..k])
        && err == (if k < |SETUP| then CodeOf(errors, SETUP[k]) else 0)
        && counter == (if k < |SETUP| then 0 else 1)
    {
      hide SETUP;
      k := Reached(errors, SETUP);
      FirstErrorIs(errors);
      err := 0;
      if counter == 0 {
        err := SetUpAll(errors);
        if err != 0 {
          return;
        }
      }
      counter := Inc(counter);
      err := 0;
    }

    /** The calls of GWEN_Init in their order. */
    method SetUpAll(errors: Outcome) returns (err: int)
      modifies this`log
      ensures SetUpDone(errors, old(log), err)
    {
      ghost var base := log;
      assert UpTo(errors, base, 0);
      hide UpTo, SetUpDone;
      err := SetUpBase(errors, base);
      if err != 0 { return; }
      err := SetUpSystem(errors, base);
      if err != 0 { return; }
      err := SetUpServices(errors, base);
      if err != 0 { return; }
      AllUp(this, errors, base);
    }

    /** The modules before the paths are registered. */
    method SetUpBase(errors: Outcome, ghost base: seq<Event>) returns (err: int)
      requires UpTo(errors, base, 0)
      modifies this`log
      ensures err != 0 ==> SetUpDone(errors, base, err)
      ensures err == 0 ==> UpTo(errors, base, 4)
    {
      hide UpTo, SetUpDone;
      err := SetUp(Logger, errors, base);
      if err != 0 { return; }
      err := SetUp(Gnutls, errors, base);
      if err != 0 { return; }
      err := SetUp(Errors, errors, base);
      if err != 0 { return; }
      err := SetUp(PathManager, errors, base);
    }

    /** The next ones. */
    method SetUpSystem(errors: Outcome, ghost base: seq<Event>) returns (err: int)
      requires UpTo(errors, base, 4)
      modifies this`log
      ensures err != 0 ==> SetUpDone(errors, base, err)
      ensures err == 0 ==> UpTo(errors, base, 9)
    {
      hide UpTo, SetUpDone;
      err := SetUp(I18N, errors, base);
      if err != 0 { return; }
      err := SetUp(InetAddr, errors, base);
      if err != 0 { return; }
      err := SetUp(Socket, errors, base);
      if err != 0 { return; }
      err := SetUp(LibLoader, errors, base);
      if err != 0 { return; }
      err := SetUp(Crypt3, errors, base);
    }

    /** The last ones. */
    method SetUpServices(errors: Outcome, ghost base: seq<Event>) returns (err: int)
      requires UpTo(errors, base, 9)
      modifies this`log
      ensures err != 0 ==> SetUpDone(errors, base, err)
      ensures err == 0 ==> UpTo(errors, base, 15)
    {
      hide UpTo, SetUpDone;
      err := SetUp(Process, errors, base);
      if err != 0 { return; }
      err := SetUp(Plugin, errors, base);
      if err != 0 { return; }
      err := SetUp(DBIO, errors, base);
      if err != 0 { return; }
      err := SetUp(ConfigMgr, errors, base);
      if err != 0 { return; }
      err := SetUp(CryptToken, errors, base);
      if err != 0 { return; }
      err := SetUp(Gui, errors, base);
    }

    /** The first i modules have been torn down since `base`, the last error among them being err. */
    ghost predicate DownTo(errors: Outcome, base: seq<Event>, err: int, i: nat)
      reads this
    {
      i <= |TEARDOWN| && log == base + Downs(TEARDOWN[..i]) && err == LastError(errors, TEARDOWN[..i])
    }

    /** One module teardown function; its error, if any, replaces the one before. */
    method TearDown(m: Module, errors: Outcome, err: int, ghost base: seq<Event>) returns (err': int)
      requires DownTo(errors, base, err, TeardownIndex(m))
      modifies this`log
      ensures DownTo(errors, base, err', TeardownIndex(m) + 1)
    {
      IndexIs(m);
      hide TEARDOWN, TeardownIndex;
      ghost var i := TeardownIndex(m);
      assert TEARDOWN[..i + 1][..i] == TEARDOWN[..i];
      log := log + [Down(m)];
      err' := if TeardownFails(errors, m) then errors[m] else err;
    }

    /** The calls of GWEN_Fini in their order. */
    method TearDownAll(errors: Outcome) returns (err: int)
      modifies this`log
      ensures log == old(log) + Downs(TEARDOWN) && err == LastError(errors, TEARDOWN)
    {
      ghost var base := log;
      assert DownTo(errors, base, 0, 0);
      hide DownTo, LastError, Downs;
      err := TearDownServices(errors, 0, base);
      err := TearDownBase(errors, err, base);
      AllDown(this, errors, base, err);
    }

    /** The modules set up last. */
    method TearDownServices(errors: Outcome, before: int, ghost base: seq<Event>) returns (err: int)
      requires DownTo(errors, base, before, 0)
      modifies this`log
      ensures DownTo(errors, base, err, 7)
    {
      hide DownTo;
      err := before;
      err := TearDown(Gui, errors, err, base);
      err := TearDown(CryptToken, errors, err, base);
      err := TearDown(ConfigMgr, errors, err, base);
      err := TearDown(DBIO, errors, err, base);
      err := TearDown(Plugin, errors, err, base);
      err := TearDown(Process, errors, err, base);
      err := TearDown(Crypt3, errors, err, base);
    }

    /** The others; the Logger and gnutls come last. */
    method TearDownBase(errors: Outcome, before: int, ghost base: seq<Event>) returns (err: int)
      requires DownTo(errors, base, before, 7)
      modifies this`log
      ensures DownTo(errors, base, err, 15)
    {
      hide DownTo;
      err := before;
      err := TearDown(LibLoader, errors, err, base);
      err := TearDown(Socket, errors, err, base);
      err := TearDown(InetAddr, errors, err, base);
      err := TearDown(I18N, errors, err, base);
      err := TearDown(PathManager, errors, err, base);
      err := TearDown(Errors, errors, err, base);
      err := TearDown(Logger, errors, err, base);
      err := TearDown(Gnutls, errors, err, base);
    }

    /** GWEN_Fini: every module is torn down whatever the others return. */
    method FiniLibrary(errors: Outcome) returns (err: int, ghost k: int)
      modifies this
      ensures Current() == Fini(old(Current()))
      ensures old(counter) == 0 ==> counter == 0
      ensures old(counter) > 0 ==> counter == old(counter) - 1
      ensures old(counter) != 1 ==> err == 0 && log == old(log)
      ensures old(counter) == 1 ==>
        && LastFailure(errors, k) && err == (if k >= 0 then CodeOf(errors, TEARDOWN[k]) else 0)
        && log == old(log) + Downs(TEARDOWN)
    {
      hide TEARDOWN;
      k := LastErrorIs(errors);
      err := 0;
      if counter == 0 {
        return;
      }
      counter := counter - 1;
      if counter == 0 {
        err := TearDownAll(errors);
      }
    }

    method FiniForcedLibrary(errors: Outcome) returns (err: int, ghost k: int)
      modifies this
      ensures Current() == FiniForced(old(Current()))
      ensures counter == 0
      ensures old(counter) == 0 ==> err == 0 && log == old(log)
      ensures old(counter) > 0 ==>
        && LastFailure(errors, k) && err == (if k >= 0 then CodeOf(errors, TEARDOWN[k]) else 0)
        && log == old(log) + Downs(TEARDOWN)
    {
      if counter > 0 {
        counter := 1;
      }
      err, k := FiniLibrary(errors);
    }
  }
}
