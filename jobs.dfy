/**
 * The job tables of BetterBJ: the abstract `Job`, the concrete
 * `ActiveJob` with its four single-table-inheritance variants, and the
 * concrete `ExecutedJob`; the column defaults their schema declares and
 * the validations a record must pass before it is stored.
 */
module Jobs {
  import opened Wrappers
  import opened Attributes
  import opened Naming
  import opened Tables

  /** Seconds since the epoch. */
  type Time = int

  /** The job classes. */
  datatype JobKind =
    | Job
    | ActiveJob
    | ActiveCodeJob
    | ActiveRubyScriptJob
    | ActiveRakeTaskJob
    | ActiveShellCommandJob
    | ExecutedJob

  /** The superclass each job class is declared with; `Job`'s is `Table`. */
  function Superclass(k: JobKind): Option<JobKind> {
    match k
    case Job => None
    case ActiveJob => Some(Job)
    case ExecutedJob => Some(Job)
    case _ => Some(ActiveJob)
  }

  /** `Job` sets `self.abstract_class = true`; its subclasses do not. */
  predicate IsAbstract(k: JobKind) {
    k == Job
  }

  /** `ActiveJob` and the classes stored in its table through STI. */
  predicate IsActive(k: JobKind) {
    k == ActiveJob || Superclass(k) == Some(ActiveJob)
  }

  /** The constant name each job class is declared under inside `BetterBJ`. */
  function Segment(k: JobKind): (r: string)
    ensures |r| > 0 && ':' !in r
  {
    match k
    case Job => "Job"
    case ActiveJob => "ActiveJob"
    case ActiveCodeJob => "ActiveCodeJob"
    case ActiveRubyScriptJob => "ActiveRubyScriptJob"
    case ActiveRakeTaskJob => "ActiveRakeTaskJob"
    case ActiveShellCommandJob => "ActiveShellCommandJob"
    case ExecutedJob => "ExecutedJob"
  }

  /** The position of each class's definition in `job.rb`, from 1. */
  function Ordinal(k: JobKind): (r: nat)
    ensures 1 <= r <= 7
  {
    match k
    case Job => 1
    case ActiveJob => 2
    case ActiveCodeJob => 3
    case ActiveRubyScriptJob => 4
    case ActiveRakeTaskJob => 5
    case ActiveShellCommandJob => 6
    case ExecutedJob => 7
  }

  /** The class object of each job class, as the registry sees it: its
      `name` is the constant path `BetterBJ::<segment>`. */
  function ClassOf(k: JobKind): (r: TableClass)
    ensures r.id == Ordinal(k) && r.name.Some?
  {
    TableClass(Ordinal(k), Some("BetterBJ" + "::" + Segment(k)))
  }

  /** `ActiveJob::STATES`. */
  const States: seq<string> := ["Pending", "Starting", "Running"]

  /** What `ExecutedJob#state` answers. */
  const ExecutedState: string := "Executed"

  /** The default timeout, ten minutes. */
  const DefaultTimeout: int := 10 * 60

  /** One job row.  The integer columns hold the values as assigned, so
      that the integer check can see `"junk"` or `"3.14"`; `kind` stands for
      the STI `type` column; `state` is a column of active jobs only. */
  datatype JobRecord = JobRecord(
    kind: JobKind,
    code: Option<string>,
    priority: Raw,
    retries: Raw,
    attempts: Raw,
    timeout: Raw,
    lastRunError: Option<string>,
    submitter: Option<string>,
    submitterPid: Raw,
    runnerPid: Option<int>,
    jobPid: Option<int>,
    runAt: Option<Time>,
    startedAt: Option<Time>,
    finishedAt: Option<Time>,
    exitStatus: Option<int>,
    result: Option<string>,
    error: Option<string>,
    env: Option<string>,
    stdin: Option<string>,
    stdout: Option<string>,
    stderr: Option<string>,
    state: Option<string>,
    createdAt: Option<Time>)

  datatype BuildError = AbstractClass

  /** `kind.new`: a record holding every column's declared default.  An
      abstract class has no table to build a record from. */
  function New(kind: JobKind): (r: Result<JobRecord, BuildError>)
    ensures r.Err? <==> IsAbstract(kind)
    ensures r.Ok? ==> r.value.kind == kind
    ensures r.Ok? ==> && r.value.priority == Int(0)
                      && r.value.retries == Int(0)
                      && r.value.attempts == Int(0)
                      && r.value.timeout == Int(10 * 60)
    ensures r.Ok? && IsActive(kind) ==> r.value.state == Some(States[0])
    ensures r.Ok? ==> && r.value.code.None? && r.value.submitterPid.Nil?
                      && r.value.runAt.None? && r.value.createdAt.None?
  {
    if IsAbstract(kind) then Err(AbstractClass)
    else
      Ok(JobRecord(
        kind := kind,
        code := None,
        priority := Int(0),
        retries := Int(0),
        attempts := Int(0),
        timeout := Int(DefaultTimeout),
        lastRunError := None,
        submitter := None,
        submitterPid := Nil,
        runnerPid := None,
        jobPid := None,
        runAt := None,
        startedAt := None,
        finishedAt := None,
        exitStatus := None,
        result := None,
        error := None,
        env := None,
        stdin := None,
        stdout := None,
        stderr := None,
        state := if IsActive(kind) then Some(States[0]) else None,
        createdAt := None))
  }

  /** `Job#submitted_at`: the time the row was created. */
  function SubmittedAt(j: JobRecord): (r: Option<Time>)
    ensures r == j.createdAt
  {
    j.createdAt
  }

  /** `state`: the column for an active job; for an executed job the
      constant `"Executed"`, whatever the row holds. */
  function State(j: JobRecord): (r: Option<string>)
    ensures j.kind == ExecutedJob ==> r == Some(ExecutedState)
    ensures j.kind != ExecutedJob ==> r == j.state
  {
    if j.kind == ExecutedJob then Some(ExecutedState) else j.state
  }

  // ---------------------------------------------------------------------
  // Validations
  // ---------------------------------------------------------------------

  /** The attributes the validations name. */
  datatype Attr = Code | Priority | Retries | Attempts | Timeout | SubmitterPid | RunAt | StateAttr

  /** ActiveRecord's messages: "can't be blank", "is not a number",
      "is not included in the list". */
  datatype Reason = Blank | NotANumber | NotIncluded

  datatype ValidationError = ValidationError(attr: Attr, reason: Reason)

  /** `validates_presence_of :code, :priority, :retries, :attempts,
      :timeout, :submitter_pid, :run_at`, in that order. */
  const PresenceAttrs: seq<Attr> := [Code, Priority, Retries, Attempts, Timeout, SubmitterPid, RunAt]

  /** `validates_numericality_of :priority, :retries, :attempts, :timeout,
      :submitter_pid, :only_integer => true`. */
  const IntegerAttrs: seq<Attr> := [Priority, Retries, Attempts, Timeout, SubmitterPid]

  predicate IsIntegerAttr(a: Attr) {
    a in IntegerAttrs
  }

  /** The value assigned to an integer attribute. */
  function RawOf(j: JobRecord, a: Attr): Raw
    requires IsIntegerAttr(a)
  {
    match a
    case Priority => j.priority
    case Retries => j.retries
    case Attempts => j.attempts
    case Timeout => j.timeout
    case SubmitterPid => j.submitterPid
  }

  /** The same record with an integer attribute assigned `v`. */
  function WithRaw(j: JobRecord, a: Attr, v: Raw): (r: JobRecord)
    requires IsIntegerAttr(a)
    ensures RawOf(r, a) == v
    ensures forall b :: IsIntegerAttr(b) && b != a ==> RawOf(r, b) == RawOf(j, b)
    ensures r.kind == j.kind && r.code == j.code && r.runAt == j.runAt && r.state == j.state
  {
    match a
    case Priority => j.(priority := v)
    case Retries => j.(retries := v)
    case Attempts => j.(attempts := v)
    case Timeout => j.(timeout := v)
    case SubmitterPid => j.(submitterPid := v)
  }

  /** `validates_presence_of` for one attribute. */
  predicate IsPresent(j: JobRecord, a: Attr) {
    match a
    case Code => j.code.Some? && !IsBlank(j.code.value)
    case RunAt => j.runAt.Some?
    case StateAttr => j.state.Some? && !IsBlank(j.state.value)
    case _ => Present(RawOf(j, a))
  }

  /** The presence errors for `attrs`, in order. */
  function PresenceErrors(j: JobRecord, attrs: seq<Attr>): seq<ValidationError>
    decreases |attrs|
  {
    if |attrs| == 0 then []
    else (if IsPresent(j, attrs[0]) then [] else [ValidationError(attrs[0], Blank)]) + PresenceErrors(j, attrs[1..])
  }

  /** The integer-check errors for `attrs`, in order. */
  function NumericalityErrors(j: JobRecord, attrs: seq<Attr>): seq<ValidationError>
    requires forall a :: a in attrs ==> IsIntegerAttr(a)
    decreases |attrs|
  {
    if |attrs| == 0 then []
    else (if Integral(RawOf(j, attrs[0])) then [] else [ValidationError(attrs[0], NotANumber)]) + NumericalityErrors(j, attrs[1..])
  }

  /** The presence validation reports an attribute exactly when it is
      blank, and reports nothing exactly when all are present. */
  lemma {:induction false} PresenceErrorsSpec(j: JobRecord, attrs: seq<Attr>)
    ensures forall e :: e in PresenceErrors(j, attrs) <==> e.reason == Blank && e.attr in attrs && !IsPresent(j, e.attr)
    decreases |attrs|
  {
    if |attrs| > 0 {
      PresenceErrorsSpec(j, attrs[1..]);
      assert attrs == [attrs[0]] + attrs[1..];
    }
  }

  lemma {:induction false} PresenceErrorsEmpty(j: JobRecord, attrs: seq<Attr>)
    ensures PresenceErrors(j, attrs) == [] <==> forall a :: a in attrs ==> IsPresent(j, a)
    decreases |attrs|
  {
    if |attrs| > 0 {
      PresenceErrorsEmpty(j, attrs[1..]);
      assert attrs == [attrs[0]] + attrs[1..];
    }
  }

  /** The integer validation reports an attribute exactly when its value
      fails the integer check, and nothing exactly when all pass. */
  lemma {:induction false} NumericalityErrorsSpec(j: JobRecord, attrs: seq<Attr>)
    requires forall a :: a in attrs ==> IsIntegerAttr(a)
    ensures forall e :: e in NumericalityErrors(j, attrs) <==> e.reason == NotANumber && e.attr in attrs && !Integral(RawOf(j, e.attr))
    decreases |attrs|
  {
    if |attrs| > 0 {
      NumericalityErrorsSpec(j, attrs[1..]);
      assert attrs == [attrs[0]] + attrs[1..];
    }
  }

  lemma {:induction false} NumericalityErrorsEmpty(j: JobRecord, attrs: seq<Attr>)
    requires forall a :: a in attrs ==> IsIntegerAttr(a)
    ensures NumericalityErrors(j, attrs) == [] <==> forall a :: a in attrs ==> Integral(RawOf(j, a))
    decreases |attrs|
  {
    if |attrs| > 0 {
      NumericalityErrorsEmpty(j, attrs[1..]);
      assert attrs == [attrs[0]] + attrs[1..];
    }
  }

  /** `validates_presence_of :state` and `validates_inclusion_of :state,
      :in => STATES`, declared on `ActiveJob`. */
  function StateErrors(j: JobRecord): seq<ValidationError> {
    if !IsActive(j.kind) then []
    else
      (if IsPresent(j, StateAttr) then [] else [ValidationError(StateAttr, Blank)])
      + (if j.state.Some? && j.state.value in States then [] else [ValidationError(StateAttr, NotIncluded)])
  }

  /** Every error the validations report, in the order they run. */
  function Errors(j: JobRecord): seq<ValidationError> {
    PresenceErrors(j, PresenceAttrs) + NumericalityErrors(j, IntegerAttrs) + StateErrors(j)
  }

  /** `valid?`: no validation reports an error. */
  predicate Valid(j: JobRecord) {
    Errors(j) == []
  }

  /** The validity rule spelled out field by field. */
  predicate MeetsSchema(j: JobRecord) {
    && j.code.Some? && !IsBlank(j.code.value)
    && Integral(j.priority)
    && Integral(j.retries)
    && Integral(j.attempts)
    && Integral(j.timeout)
    && Integral(j.submitterPid)
    && j.runAt.Some?
    && (IsActive(j.kind) ==> j.state.Some? && j.state.value in States)
  }

  lemma StatesAreNotBlank(s: string)
    requires s in States
    ensures !IsBlank(s)
  {
    assert !IsSpace(s[0]);
  }

  lemma MeetsSchemaHasNoPresenceErrors(j: JobRecord)
    requires MeetsSchema(j)
    ensures PresenceErrors(j, PresenceAttrs) == []
  {
    IntegralIsPresent(j.priority);
    IntegralIsPresent(j.retries);
    IntegralIsPresent(j.attempts);
    IntegralIsPresent(j.timeout);
    IntegralIsPresent(j.submitterPid);
    PresenceErrorsEmpty(j, PresenceAttrs);
  }

  lemma MeetsSchemaHasNoNumericalityErrors(j: JobRecord)
    requires MeetsSchema(j)
    ensures NumericalityErrors(j, IntegerAttrs) == []
  {
    NumericalityErrorsEmpty(j, IntegerAttrs);
    forall a | a in IntegerAttrs ensures Integral(RawOf(j, a)) {
      assert a == Priority || a == Retries || a == Attempts || a == Timeout || a == SubmitterPid;
    }
  }

  lemma MeetsSchemaHasNoStateErrors(j: JobRecord)
    requires MeetsSchema(j)
    ensures StateErrors(j) == []
  {
    if IsActive(j.kind) {
      StatesAreNotBlank(j.state.value);
    }
  }

  lemma MeetsSchemaIsValid(j: JobRecord)
    requires MeetsSchema(j)
    ensures Valid(j)
  {
    MeetsSchemaHasNoPresenceErrors(j);
    MeetsSchemaHasNoNumericalityErrors(j);
    MeetsSchemaHasNoStateErrors(j);
  }

  /** A record missing any attribute named by `validates_presence_of` is
      invalid, and says so for that attribute. */
  lemma MissingAttributeInvalid(j: JobRecord, a: Attr)
    requires a in PresenceAttrs && !IsPresent(j, a)
    ensures ValidationError(a, Blank) in Errors(j)
    ensures !Valid(j)
  {
    PresenceErrorsSpec(j, PresenceAttrs);
    assert ValidationError(a, Blank) in PresenceErrors(j, PresenceAttrs);
  }

  /** A record whose integer attribute fails the integer check is invalid,
      and says so for that attribute. */
  lemma NonIntegralAttributeInvalid(j: JobRecord, a: Attr)
    requires IsIntegerAttr(a) && !Integral(RawOf(j, a))
    ensures ValidationError(a, NotANumber) in Errors(j)
    ensures !Valid(j)
  {
    assert a in IntegerAttrs;
    NumericalityErrorsSpec(j, IntegerAttrs);
    assert ValidationError(a, NotANumber) in NumericalityErrors(j, IntegerAttrs);
  }

  /** An active record whose state is missing or not one of `STATES` is
      invalid, and says so for `state`. */
  lemma UnlistedStateInvalid(j: JobRecord)
    requires IsActive(j.kind)
    requires j.state.None? || j.state.value !in States
    ensures ValidationError(StateAttr, NotIncluded) in Errors(j)
    ensures !Valid(j)
  {
    assert ValidationError(StateAttr, NotIncluded) in StateErrors(j);
  }

  /** A record that breaks the rule reports at least one error. */
  lemma BrokenSchemaIsInvalid(j: JobRecord)
    requires !MeetsSchema(j)
    ensures !Valid(j)
  {
    if !IsPresent(j, Code) {
      MissingAttributeInvalid(j, Code);
    } else if !IsPresent(j, RunAt) {
      MissingAttributeInvalid(j, RunAt);
    } else if !Integral(j.priority) {
      NonIntegralAttributeInvalid(j, Priority);
    } else if !Integral(j.retries) {
      NonIntegralAttributeInvalid(j, Retries);
    } else if !Integral(j.attempts) {
      NonIntegralAttributeInvalid(j, Attempts);
    } else if !Integral(j.timeout) {
      NonIntegralAttributeInvalid(j, Timeout);
    } else if !Integral(j.submitterPid) {
      NonIntegralAttributeInvalid(j, SubmitterPid);
    } else {
      UnlistedStateInvalid(j);
    }
  }

  /** A record is valid exactly when it meets the rule field by field. */
  lemma ValidIffMeetsSchema(j: JobRecord)
    ensures Valid(j) <==> MeetsSchema(j)
  {
    if MeetsSchema(j) {
      MeetsSchemaIsValid(j);
    } else {
      BrokenSchemaIsInvalid(j);
    }
  }

  // ---------------------------------------------------------------------
  // Properties of the schema
  // ---------------------------------------------------------------------

  /** The values the integer check rejects, on every integer attribute. */
  lemma RejectedIntegerValues(j: JobRecord, a: Attr)
    requires IsIntegerAttr(a)
    ensures !Valid(WithRaw(j, a, Nil))
    ensures !Valid(WithRaw(j, a, Text("junk")))
    ensures !Valid(WithRaw(j, a, Text("3.14")))
  {
    IntegerCheckExamples();
    NonIntegralAttributeInvalid(WithRaw(j, a, Nil), a);
    NonIntegralAttributeInvalid(WithRaw(j, a, Text("junk")), a);
    NonIntegralAttributeInvalid(WithRaw(j, a, Text("3.14")), a);
  }

  /** Assigning any integer to an integer attribute of a valid record
      keeps it valid. */
  lemma IntegerValuesAccepted(j: JobRecord, a: Attr, n: int)
    requires IsIntegerAttr(a) && Valid(j)
    ensures Valid(WithRaw(j, a, Int(n)))
  {
    ValidIffMeetsSchema(j);
    ValidIffMeetsSchema(WithRaw(j, a, Int(n)));
  }

  /** On a valid active record, a new state keeps it valid exactly when it
      is one of `STATES`. */
  lemma StateMustBeListed(j: JobRecord, s: string)
    requires IsActive(j.kind) && Valid(j)
    ensures Valid(j.(state := Some(s))) <==> s in States
  {
    ValidIffMeetsSchema(j);
    ValidIffMeetsSchema(j.(state := Some(s)));
  }

  /** `"junk"`, or no state at all, makes an active record invalid. */
  lemma JunkStateInvalid(j: JobRecord)
    requires IsActive(j.kind)
    ensures !Valid(j.(state := Some("junk")))
    ensures !Valid(j.(state := None))
  {
    ValidIffMeetsSchema(j.(state := Some("junk")));
    ValidIffMeetsSchema(j.(state := None));
  }

  /** A valid active record is in one of the three active states. */
  lemma ValidActiveJobHasListedState(j: JobRecord)
    requires IsActive(j.kind) && Valid(j)
    ensures State(j).Some? && State(j).value in States
  {
    ValidIffMeetsSchema(j);
  }

  /** The presence validation runs attribute by attribute. */
  lemma {:induction false} PresenceErrorsAppend(j: JobRecord, a: seq<Attr>, b: seq<Attr>)
    ensures PresenceErrors(j, a + b) == PresenceErrors(j, a) + PresenceErrors(j, b)
    decreases |a|
  {
    if |a| > 0 {
      PresenceErrorsAppend(j, a[1..], b);
      assert (a + b)[1..] == a[1..] + b;
    } else {
      assert a + b == b;
    }
  }

  lemma PresenceErrorsSingle(j: JobRecord, a: Attr)
    ensures PresenceErrors(j, [a]) == if IsPresent(j, a) then [] else [ValidationError(a, Blank)]
  {
    assert [a][1..] == [];
  }

  /** The integer validation runs attribute by attribute. */
  lemma {:induction false} NumericalityErrorsAppend(j: JobRecord, a: seq<Attr>, b: seq<Attr>)
    requires forall x :: x in a ==> IsIntegerAttr(x)
    requires forall x :: x in b ==> IsIntegerAttr(x)
    ensures NumericalityErrors(j, a + b) == NumericalityErrors(j, a) + NumericalityErrors(j, b)
    decreases |a|
  {
    if |a| > 0 {
      var rest := a[1..];
      assert forall x :: x in rest ==> x in a;
      NumericalityErrorsAppend(j, rest, b);
      assert (a + b)[0] == a[0] && (a + b)[1..] == rest + b;
    } else {
      assert a + b == b;
    }
  }

  lemma NumericalityErrorsSingle(j: JobRecord, a: Attr)
    requires IsIntegerAttr(a)
    ensures NumericalityErrors(j, [a]) == if Integral(RawOf(j, a)) then [] else [ValidationError(a, NotANumber)]
  {
    assert [a][1..] == [];
  }

  /** The four counters a fresh record fills in. */
  const Counters: seq<Attr> := [Priority, Retries, Attempts, Timeout]

  lemma FreshCountersPresent(j: JobRecord)
    requires j.priority == j.retries == j.attempts == Int(0) && j.timeout == Int(DefaultTimeout)
    ensures PresenceErrors(j, Counters) == []
  {
    PresenceErrorsEmpty(j, Counters);
  }

  lemma FreshCountersIntegral(j: JobRecord)
    requires j.priority == j.retries == j.attempts == Int(0) && j.timeout == Int(DefaultTimeout)
    ensures NumericalityErrors(j, Counters) == []
  {
    NumericalityErrorsEmpty(j, Counters);
  }

  /** The two presence checks at the end of the list, on a fresh record. */
  lemma FreshPresenceTail(j: JobRecord)
    requires j.submitterPid.Nil? && j.runAt.None?
    ensures PresenceErrors(j, [SubmitterPid] + [RunAt]) == [ValidationError(SubmitterPid, Blank), ValidationError(RunAt, Blank)]
  {
    PresenceErrorsSingle(j, SubmitterPid);
    PresenceErrorsSingle(j, RunAt);
    PresenceErrorsAppend(j, [SubmitterPid], [RunAt]);
  }

  lemma FreshPresenceRest(j: JobRecord)
    requires j.submitterPid.Nil? && j.runAt.None?
    requires j.priority == j.retries == j.attempts == Int(0) && j.timeout == Int(DefaultTimeout)
    ensures PresenceErrors(j, Counters + ([SubmitterPid] + [RunAt])) == [ValidationError(SubmitterPid, Blank), ValidationError(RunAt, Blank)]
  {
    FreshPresenceTail(j);
    FreshCountersPresent(j);
    PresenceErrorsAppend(j, Counters, [SubmitterPid] + [RunAt]);
  }

  lemma FreshPresenceErrors(j: JobRecord)
    requires j.code.None? && j.submitterPid.Nil? && j.runAt.None?
    requires j.priority == j.retries == j.attempts == Int(0) && j.timeout == Int(DefaultTimeout)
    ensures PresenceErrors(j, PresenceAttrs) == [
              ValidationError(Code, Blank),
              ValidationError(SubmitterPid, Blank),
              ValidationError(RunAt, Blank)]
  {
    var rest := Counters + ([SubmitterPid] + [RunAt]);
    FreshPresenceRest(j);
    PresenceErrorsSingle(j, Code);
    PresenceErrorsAppend(j, [Code], rest);
    assert PresenceAttrs == [Code] + rest;
  }

  lemma FreshNumericalityErrors(j: JobRecord)
    requires j.submitterPid.Nil?
    requires j.priority == j.retries == j.attempts == Int(0) && j.timeout == Int(DefaultTimeout)
    ensures NumericalityErrors(j, IntegerAttrs) == [ValidationError(SubmitterPid, NotANumber)]
  {
    assert NumericalityErrors(j, [SubmitterPid]) == [ValidationError(SubmitterPid, NotANumber)] by {
      NumericalityErrorsSingle(j, SubmitterPid);
    }
    FreshCountersIntegral(j);
    NumericalityErrorsAppend(j, Counters, [SubmitterPid]);
    assert IntegerAttrs == Counters + [SubmitterPid];
  }

  /** A freshly built record lacks exactly what a submitter has to supply:
      the code, the submitter's pid and the time to run at. */
  lemma FreshJobErrors(kind: JobKind)
    requires !IsAbstract(kind)
    ensures Errors(New(kind).value) == [
              ValidationError(Code, Blank),
              ValidationError(SubmitterPid, Blank),
              ValidationError(RunAt, Blank),
              ValidationError(SubmitterPid, NotANumber)]
  {
    var j := New(kind).value;
    FreshPresenceErrors(j);
    FreshNumericalityErrors(j);
    FreshStateErrors(kind);
  }

  lemma FreshStateErrors(kind: JobKind)
    requires !IsAbstract(kind)
    ensures StateErrors(New(kind).value) == []
  {
    if IsActive(kind) {
      StatesAreNotBlank(States[0]);
    }
  }

  /** Supplying those three makes a fresh record of a concrete class valid. */
  lemma SubmittedJobIsValid(kind: JobKind, code: string, pid: int, runAt: Time)
    requires !IsAbstract(kind) && !IsBlank(code)
    ensures Valid(New(kind).value.(code := Some(code), submitterPid := Int(pid), runAt := Some(runAt)))
  {
    ValidIffMeetsSchema(New(kind).value.(code := Some(code), submitterPid := Int(pid), runAt := Some(runAt)));
  }

  /** An executed job's state is `"Executed"` whatever its row holds, and
      that is none of the active states. */
  lemma ExecutedStateIsFixed(j: JobRecord, k: JobRecord)
    requires j.kind == ExecutedJob && k.kind == ExecutedJob
    ensures State(j) == State(k) == Some("Executed")
    ensures State(j).value !in States
  {
  }

  /** How many classes lie between `k` and `Table`. */
  function Depth(k: JobKind): nat {
    match Superclass(k)
    case None => 0
    case Some(parent) => 1 + (if parent == Job then 0 else 1)
  }

  /** `k <= ancestor` in Ruby's terms. */
  predicate InheritsFrom(k: JobKind, ancestor: JobKind)
    decreases Depth(k)
  {
    k == ancestor || (Superclass(k).Some? && InheritsFrom(Superclass(k).value, ancestor))
  }

  /** The class hierarchy: every job class inherits from `Job`, which alone
      is abstract; the active states apply to `ActiveJob` and its
      descendants only; exactly the concrete classes can be built. */
  lemma JobHierarchy(k: JobKind)
    ensures InheritsFrom(k, Job)
    ensures IsActive(k) <==> InheritsFrom(k, ActiveJob)
    ensures IsAbstract(k) <==> k == Job
    ensures New(k).Ok? <==> k != Job
  {
  }

  // ---------------------------------------------------------------------
  // Loading the schema
  // ---------------------------------------------------------------------

  /** The accessor each job class gets on `Table`. */
  function SelectorOf(k: JobKind): string {
    match k
    case Job => "job"
    case ActiveJob => "active_job"
    case ActiveCodeJob => "active_code_job"
    case ActiveRubyScriptJob => "active_ruby_script_job"
    case ActiveRakeTaskJob => "active_rake_task_job"
    case ActiveShellCommandJob => "active_shell_command_job"
    case ExecutedJob => "executed_job"
  }

  /** Each class gets its own accessor. */
  lemma SelectorOfInjective(a: JobKind, b: JobKind)
    ensures SelectorOf(a) == SelectorOf(b) ==> a == b
  {
    if a != b {
      assert |SelectorOf(a)| != |SelectorOf(b)|;
    }
  }

  lemma ActiveUnderscore()
    ensures Underscore("Active") == "active"
  {
    assert Capitalized("Active");
    assert DowncaseAll("Active") == "active";
    UnderscoreWord("Active");
  }

  lemma JobWord()
    ensures Capitalized("Job") && DowncaseAll("Job") == "job"
  {
  }

  lemma JobSelector()
    ensures Underscore(Segment(Job)) == SelectorOf(Job)
  {
    JobWord();
    UnderscoreWord("Job");
  }

  lemma ActiveJobSelector()
    ensures Underscore(Segment(ActiveJob)) == SelectorOf(ActiveJob)
  {
    ActiveUnderscore();
    JobWord();
    UnderscoreAppendWord("Active", "Job");
    assert "Active" + "Job" == Segment(ActiveJob);
  }

  lemma ExecutedJobSelector()
    ensures Underscore(Segment(ExecutedJob)) == SelectorOf(ExecutedJob)
  {
    assert Capitalized("Executed");
    assert DowncaseAll("Executed") == "executed";
    UnderscoreWord("Executed");
    JobWord();
    UnderscoreAppendWord("Executed", "Job");
    assert "Executed" + "Job" == Segment(ExecutedJob);
  }

  lemma ActiveCodeJobSelector()
    ensures Underscore(Segment(ActiveCodeJob)) == SelectorOf(ActiveCodeJob)
  {
    ActiveUnderscore();
    assert Capitalized("Code");
    assert DowncaseAll("Code") == "code";
    UnderscoreAppendWord("Active", "Code");
    JobWord();
    UnderscoreAppendWord("Active" + "Code", "Job");
    assert "Active" + "Code" + "Job" == Segment(ActiveCodeJob);
  }

  lemma ActiveRubyUnderscore()
    ensures Underscore("Active" + "Ruby") == "active_ruby"
  {
    ActiveUnderscore();
    assert Capitalized("Ruby");
    assert DowncaseAll("Ruby") == "ruby";
    UnderscoreAppendWord("Active", "Ruby");
  }

  lemma ActiveRubyScriptJobSelector()
    ensures Underscore(Segment(ActiveRubyScriptJob)) == SelectorOf(ActiveRubyScriptJob)
  {
    ActiveRubyUnderscore();
    assert Capitalized("Script");
    assert DowncaseAll("Script") == "script";
    UnderscoreAppendWord("Active" + "Ruby", "Script");
    JobWord();
    UnderscoreAppendWord("Active" + "Ruby" + "Script", "Job");
    assert "Active" + "Ruby" + "Script" + "Job" == Segment(ActiveRubyScriptJob);
  }

  lemma ActiveRakeUnderscore()
    ensures Underscore("Active" + "Rake") == "active_rake"
  {
    ActiveUnderscore();
    assert Capitalized("Rake");
    assert DowncaseAll("Rake") == "rake";
    UnderscoreAppendWord("Active", "Rake");
  }

  lemma ActiveRakeTaskJobSelector()
    ensures Underscore(Segment(ActiveRakeTaskJob)) == SelectorOf(ActiveRakeTaskJob)
  {
    ActiveRakeUnderscore();
    assert Capitalized("Task");
    assert DowncaseAll("Task") == "task";
    UnderscoreAppendWord("Active" + "Rake", "Task");
    JobWord();
    UnderscoreAppendWord("Active" + "Rake" + "Task", "Job");
    assert "Active" + "Rake" + "Task" + "Job" == Segment(ActiveRakeTaskJob);
  }

  lemma ActiveShellUnderscore()
    ensures Underscore("Active" + "Shell") == "active_shell"
  {
    ActiveUnderscore();
    assert Capitalized("Shell");
    assert DowncaseAll("Shell") == "shell";
    UnderscoreAppendWord("Active", "Shell");
  }

  lemma ActiveShellCommandJobSelector()
    ensures Underscore(Segment(ActiveShellCommandJob)) == SelectorOf(ActiveShellCommandJob)
  {
    ActiveShellUnderscore();
    assert Capitalized("Command");
    assert DowncaseAll("Command") == "command";
    UnderscoreAppendWord("Active" + "Shell", "Command");
    JobWord();
    UnderscoreAppendWord("Active" + "Shell" + "Command", "Job");
    assert "Active" + "Shell" + "Command" + "Job" == Segment(ActiveShellCommandJob);
  }

  /** The accessor the registry's hook defines for a job class: the
      snake_case form of the class's own constant name. */
  lemma ClassAccessorName(k: JobKind)
    ensures AccessorName(ClassOf(k).name.value) == Some(SelectorOf(k))
  {
    QualifiedAccessorName("BetterBJ", Segment(k));
    match k
    case Job => JobSelector();
    case ActiveJob => ActiveJobSelector();
    case ActiveCodeJob => ActiveCodeJobSelector();
    case ActiveRubyScriptJob => ActiveRubyScriptJobSelector();
    case ActiveRakeTaskJob => ActiveRakeTaskJobSelector();
    case ActiveShellCommandJob => ActiveShellCommandJobSelector();
    case ExecutedJob => ExecutedJobSelector();
  }
}
