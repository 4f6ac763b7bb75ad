/** A cron job of the bundle: five schedule fields with an optional whole-expression
    override, an argument map, a priority and an alias. */
module Cron {
  import opened Wrappers
  import opened Text
  import opened ArgGrammar
  import opened ArgScanner
  import opened ArgMap
  import opened Arguments

  /** The state of one job. `expression` and `alias` are `None` until a setter assigns them. */
  datatype CronJob = CronJob(
    minute: string,
    hour: string,
    dayOfMonth: string,
    month: string,
    dayOfWeek: string,
    expression: Option<string>,
    arguments: seq<Arg>,
    priority: int,
    alias: Option<string>)

  /** The priority of a job whose priority was never set. */
  const DefaultPriority := 100

  /** A freshly constructed job with the base class's field defaults. A concrete job may
      declare other schedule fields; it is then a `CronJob` with those fields instead. */
  const NewJob := CronJob("*", "*", "*", "*", "*", None, [], DefaultPriority, None)

  /** The five schedule fields in expression order. */
  function Fields(job: CronJob): seq<string> {
    [job.minute, job.hour, job.dayOfMonth, job.month, job.dayOfWeek]
  }

  /** PHP truthiness of a nullable string: `null`, `""` and `"0"` are false. */
  predicate Truthy(s: Option<string>) {
    s.Some? && s.value != "" && s.value != "0"
  }

  /** `getExpression`: a truthy override is the expression. Otherwise the expression is the
      five fields joined by single spaces, so splitting it at spaces gives the fields back
      when none of them holds a space. */
  function GetExpression(job: CronJob): (r: string)
    ensures Truthy(job.expression) ==> r == job.expression.value
    ensures !Truthy(job.expression) ==> r == Join(" ", Fields(job))
    ensures !Truthy(job.expression) && (forall i :: 0 <= i < 5 ==> ' ' !in Fields(job)[i]) ==>
      Split(r, ' ') == Fields(job)
  {
    if Truthy(job.expression) then job.expression.value
    else
      var r := Join(" ", Fields(job));
      if forall i :: 0 <= i < 5 ==> ' ' !in Fields(job)[i] then
        SplitJoin(Fields(job), ' ');
        r
      else r
  }

  /** The fields of a freshly constructed job give the every-minute schedule. */
  lemma NewJobExpression()
    ensures GetExpression(NewJob) == "* * * * *"
    ensures Split(GetExpression(NewJob), ' ') == ["*", "*", "*", "*", "*"]
  {
    var f := Fields(NewJob);
    assert f == ["*", "*", "*", "*", "*"];
    assert Join(" ", f[4..]) == "*";
    assert Join(" ", f[3..]) == "* *" by { assert f[3..][1..] == f[4..]; }
    assert Join(" ", f[2..]) == "* * *" by { assert f[2..][1..] == f[3..]; }
    assert Join(" ", f[1..]) == "* * * *" by { assert f[1..][1..] == f[2..]; }
    assert Join(" ", f) == "* * * * *";
  }

  /** `addExpression`: stores the override; it takes effect exactly when it is truthy. */
  function AddExpression(job: CronJob, e: string): (r: CronJob)
    ensures Fields(r) == Fields(job) && r.arguments == job.arguments
    ensures r.priority == job.priority && r.alias == job.alias
    ensures e != "" && e != "0" ==> GetExpression(r) == e
    ensures e == "" || e == "0" ==> GetExpression(r) == Join(" ", Fields(job))
  {
    job.(expression := Some(e))
  }

  /** `addArguments`: replaces the whole argument map by the one parsed from the subject;
      `null` reads as the empty subject. */
  function AddArguments(job: CronJob, s: Option<string>): (r: CronJob)
    ensures Fields(r) == Fields(job) && r.expression == job.expression
    ensures r.priority == job.priority && r.alias == job.alias
    ensures UniqueNames(r.arguments)
    ensures forall i :: 0 <= i < |r.arguments| ==> WellFormed(r.arguments[i])
    ensures s.None? ==> r.arguments == []
  {
    job.(arguments := Parse(s.GetOr("")))
  }

  /** The map left by `addArguments` does not depend on the map before it. */
  lemma AddArgumentsReplaces(job: CronJob, s1: Option<string>, s2: Option<string>)
    ensures AddArguments(AddArguments(job, s1), s2) == AddArguments(job, s2)
  {
  }

  /** After `addArguments(s)` a key holds the value of its last token in `s`. */
  lemma AddArgumentsLastWrite(job: CronJob, s: string, k: string, v: string)
    ensures Lookup(AddArguments(job, Some(s)).arguments, k) == Some(v) <==> LastWrite(Scan(s), k, v)
  {
    ParseLastWrite(s, k, v);
  }

  /** `getArguments`: the stored map as `key:value` tokens separated by spaces. */
  function GetArguments(job: CronJob): (r: string)
    ensures r == "" <==> |job.arguments| == 0
  {
    Serialize(job.arguments)
  }

  /** Feeding `getArguments` back into `addArguments` leaves a job whose map the grammar can express unchanged. */
  lemma ArgumentsRoundTrip(job: CronJob)
    requires UniqueNames(job.arguments)
    requires forall i :: 0 <= i < |job.arguments| ==> WellFormed(job.arguments[i])
    ensures AddArguments(job, Some(GetArguments(job))) == job
  {
    ParseSerialize(job.arguments);
  }

  /** Every map `addArguments` stores survives a trip through `getArguments`. */
  lemma ArgumentsStable(job: CronJob, s: Option<string>)
    ensures var j := AddArguments(job, s); AddArguments(j, Some(GetArguments(j))) == j
  {
    ArgumentsRoundTrip(AddArguments(job, s));
  }

  /** What the console input knows of an argument: not defined at all, or defined with a value that may be `null`. */
  datatype InputArgument = Undefined | Defined(given: Option<string>)

  /** `getArgument`: an argument the input defines wins, even when its value is `null`;
      otherwise the stored value; otherwise `null`. */
  function GetArgument(job: CronJob, input: InputArgument, key: string): (r: Option<string>)
    ensures input.Defined? ==> r == input.given
    ensures input.Undefined? ==> (r.Some? <==> key in Names(job.arguments))
    ensures input.Undefined? && r.Some? ==> Arg(key, r.value) in job.arguments
  {
    match input
    case Defined(v) => v
    case Undefined => Lookup(job.arguments, key)
  }

  /** Falling back to the stored map yields the value of the last token for the key in the
      last argument string. */
  lemma GetArgumentParsed(job: CronJob, s: string, key: string, v: string)
    ensures GetArgument(AddArguments(job, Some(s)), Undefined, key) == Some(v) <==> LastWrite(Scan(s), key, v)
  {
    ParseLastWrite(s, key, v);
  }

  /** `addPriority`: stores the priority, with no range check. */
  function AddPriority(job: CronJob, p: int): (r: CronJob)
    ensures GetPriority(r) == p
    ensures Fields(r) == Fields(job) && r.expression == job.expression
    ensures r.arguments == job.arguments && r.alias == job.alias
  {
    job.(priority := p)
  }

  /** `getPriority`. */
  function GetPriority(job: CronJob): int {
    job.priority
  }

  /** `setAlias`: stores the alias. */
  function SetAlias(job: CronJob, a: string): (r: CronJob)
    ensures r.alias.Some? && GetAlias(r) == a
    ensures Fields(r) == Fields(job) && r.expression == job.expression
    ensures r.arguments == job.arguments && r.priority == job.priority
  {
    job.(alias := Some(a))
  }

  /** `getAlias`: declared to return a string, so it cannot be used before an alias is set. */
  function GetAlias(job: CronJob): (r: string)
    requires job.alias.Some?
    ensures job.alias == Some(r)
  {
    job.alias.value
  }

  /** A call of one of the setters. */
  datatype Call =
    | AddExpressionCall(e: string)
    | AddArgumentsCall(args: Option<string>)
    | AddPriorityCall(p: int)
    | SetAliasCall(a: string)

  function Step(job: CronJob, c: Call): CronJob {
    match c
    case AddExpressionCall(e) => AddExpression(job, e)
    case AddArgumentsCall(s) => AddArguments(job, s)
    case AddPriorityCall(p) => AddPriority(job, p)
    case SetAliasCall(a) => SetAlias(job, a)
  }

  /** The job after the calls, first call first. */
  function Apply(job: CronJob, calls: seq<Call>): CronJob
    decreases |calls|
  {
    if |calls| == 0 then job else Apply(Step(job, calls[0]), calls[1..])
  }

  /** Calls of the other setters leave the priority alone. */
  lemma {:induction false} PriorityFrame(job: CronJob, calls: seq<Call>)
    requires forall j :: 0 <= j < |calls| ==> !calls[j].AddPriorityCall?
    ensures GetPriority(Apply(job, calls)) == GetPriority(job)
    decreases |calls|
  {
    if |calls| > 0 {
      PriorityFrame(Step(job, calls[0]), calls[1..]);
    }
  }

  /** The priority is the one given by the last `addPriority` call. */
  lemma {:induction false} PriorityLastWins(job: CronJob, calls: seq<Call>, i: nat)
    requires i < |calls| && calls[i].AddPriorityCall?
    requires forall j :: i < j < |calls| ==> !calls[j].AddPriorityCall?
    ensures GetPriority(Apply(job, calls)) == calls[i].p
    decreases |calls|
  {
    if i == 0 {
      PriorityFrame(Step(job, calls[0]), calls[1..]);
    } else {
      PriorityLastWins(Step(job, calls[0]), calls[1..], i - 1);
    }
  }

  /** A job whose priority was never set has priority 100. */
  lemma DefaultPriorityKept(calls: seq<Call>)
    requires forall j :: 0 <= j < |calls| ==> !calls[j].AddPriorityCall?
    ensures GetPriority(Apply(NewJob, calls)) == 100
  {
    PriorityFrame(NewJob, calls);
  }

  /** Calls of the other setters leave the alias alone. */
  lemma {:induction false} AliasFrame(job: CronJob, calls: seq<Call>)
    requires forall j :: 0 <= j < |calls| ==> !calls[j].SetAliasCall?
    ensures Apply(job, calls).alias == job.alias
    decreases |calls|
  {
    if |calls| > 0 {
      AliasFrame(Step(job, calls[0]), calls[1..]);
    }
  }

  /** The alias is the one given by the last `setAlias` call. */
  lemma {:induction false} AliasLastWins(job: CronJob, calls: seq<Call>, i: nat)
    requires i < |calls| && calls[i].SetAliasCall?
    requires forall j :: i < j < |calls| ==> !calls[j].SetAliasCall?
    ensures Apply(job, calls).alias.Some? && GetAlias(Apply(job, calls)) == calls[i].a
    decreases |calls|
  {
    if i == 0 {
      AliasFrame(Step(job, calls[0]), calls[1..]);
    } else {
      AliasLastWins(Step(job, calls[0]), calls[1..], i - 1);
    }
  }

  /** Without a `setAlias` call a new job has no alias, so `getAlias` may not be called. */
  lemma AliasUnset(calls: seq<Call>)
    requires forall j :: 0 <= j < |calls| ==> !calls[j].SetAliasCall?
    ensures Apply(NewJob, calls).alias.None?
  {
    AliasFrame(NewJob, calls);
  }

  /** Calls of the other setters leave the override and the fields alone. */
  lemma {:induction false} ExpressionFrame(job: CronJob, calls: seq<Call>)
    requires forall j :: 0 <= j < |calls| ==> !calls[j].AddExpressionCall?
    ensures Apply(job, calls).expression == job.expression
    ensures Fields(Apply(job, calls)) == Fields(job)
    decreases |calls|
  {
    if |calls| > 0 {
      ExpressionFrame(Step(job, calls[0]), calls[1..]);
    }
  }

  /** A truthy override set by the last `addExpression` call is the expression, whatever the
      fields are and whatever other calls came before or after it. */
  lemma {:induction false} ExpressionLastWins(job: CronJob, calls: seq<Call>, i: nat)
    requires i < |calls| && calls[i].AddExpressionCall?
    requires forall j :: i < j < |calls| ==> !calls[j].AddExpressionCall?
    requires calls[i].e != "" && calls[i].e != "0"
    ensures GetExpression(Apply(job, calls)) == calls[i].e
    decreases |calls|
  {
    if i == 0 {
      ExpressionFrame(Step(job, calls[0]), calls[1..]);
    } else {
      ExpressionLastWins(Step(job, calls[0]), calls[1..], i - 1);
    }
  }

  /** Calls of the other setters leave the argument map alone. */
  lemma {:induction false} ArgumentsFrame(job: CronJob, calls: seq<Call>)
    requires forall j :: 0 <= j < |calls| ==> !calls[j].AddArgumentsCall?
    ensures Apply(job, calls).arguments == job.arguments
    decreases |calls|
  {
    if |calls| > 0 {
      ArgumentsFrame(Step(job, calls[0]), calls[1..]);
    }
  }

  /** The argument map is the one parsed by the last `addArguments` call alone: earlier calls
      are not merged into it. */
  lemma {:induction false} ArgumentsLastWins(job: CronJob, calls: seq<Call>, i: nat)
    requires i < |calls| && calls[i].AddArgumentsCall?
    requires forall j :: i < j < |calls| ==> !calls[j].AddArgumentsCall?
    ensures Apply(job, calls).arguments == Parse(calls[i].args.GetOr(""))
    decreases |calls|
  {
    if i == 0 {
      ArgumentsFrame(Step(job, calls[0]), calls[1..]);
    } else {
      ArgumentsLastWins(Step(job, calls[0]), calls[1..], i - 1);
    }
  }
}
