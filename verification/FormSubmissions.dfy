/** What the page receives from `fillAndSubmit` of `packages/playwright-mcp/src/server.ts`: the text in its
    inputs, the submissions and the waits, and the domain checks around them.
 */
module FormSubmissions {
  import opened Bytes
  import opened InjectForms

  // ----- What the page receives -----

  /** What a submission finds in the inputs of the page. */
  datatype Sent = Sent(submit: Submit, inputs: map<string, string>)

  /** The page as its user would see it: the text of each input, what was submitted so far, and each wait with
      the number of submissions before it. */
  datatype Screen = Screen(inputs: map<string, string>, sent: seq<Sent>, waits: seq<(nat, string, nat)>)

  const BLANK := Screen(map[], [], [])

  function Show(s: Screen, a: Action): Screen {
    match a
    case Fill(f, text) => s.(inputs := s.inputs[f.selector := text])
    case Clear(f) => s.(inputs := s.inputs[f.selector := ""])
    case ClickSubmit(selector) => s.(sent := s.sent + [Sent(Click(selector), s.inputs)])
    case PressKey(selector) => s.(sent := s.sent + [Sent(PressEnter(selector), s.inputs)])
    case AwaitTransition(selector, timeoutMs) => s.(waits := s.waits + [(|s.sent|, selector, timeoutMs)])
    case _ => s
  }

  function ShowAll(s: Screen, actions: seq<Action>): Screen {
    if actions == [] then s else Show(ShowAll(s, actions[..|actions| - 1]), actions[|actions| - 1])
  }

  /** The screen that a log leaves behind: failed attempts change nothing. */
  function ScreenOf(log: Log): Screen {
    if log == [] then BLANK
    else
      var before, last := ScreenOf(log[..|log| - 1]), log[|log| - 1];
      if last.1 then Show(before, last.0) else before
  }

  lemma {:induction false} ShowJoin(s: Screen, a: seq<Action>, b: seq<Action>)
    ensures ShowAll(s, a + b) == ShowAll(ShowAll(s, a), b)
    decreases |b|
  {
    if b == [] {
      assert a + b == a;
    } else {
      assert (a + b)[..|a + b| - 1] == a + b[..|b| - 1];
      ShowJoin(s, a, b[..|b| - 1]);
    }
  }

  lemma ShowOne(s: Screen, a: Action)
    ensures ShowAll(s, [a]) == Show(s, a)
  {
    assert [a][..0] == [];
  }

  /** How much of the script was done. */
  function Done(log: Log, failed: bool): int { if failed then |log| - 1 else |log| }

  lemma {:induction false} ScreenOfDone(script: seq<Action>, log: Log)
    requires |log| <= |script| && forall i :: 0 <= i < |log| ==> log[i] == (script[i], true)
    ensures ScreenOf(log) == ShowAll(BLANK, script[..|log|])
    decreases |log|
  {
    if log == [] {
    } else {
      ScreenOfDone(script, log[..|log| - 1]);
      assert script[..|log|][..|log| - 1] == script[..|log| - 1];
    }
  }

  lemma ScreenOfRun(script: seq<Action>, log: Log, failed: bool)
    requires IsRun(script, log, failed)
    ensures 0 <= Done(log, failed) <= |script|
    ensures ScreenOf(log) == ShowAll(BLANK, script[..Done(log, failed)]) && Complete(script[..Done(log, failed)])
  {
    var done := log[..Done(log, failed)];
    forall i | 0 <= i < |done| ensures done[i] == (script[i], true) && !script[i].MissingValue? {
      assert done[i] == log[i];
    }
    ScreenOfDone(script, done);
    assert !failed ==> done == log;
  }

  /** A screen on which nothing was submitted and no wait began since another one. */
  ghost predicate SameSubmissions(s: Screen, t: Screen) { s.sent == t.sent && s.waits == t.waits }

  /** Nothing but domain checks, lookups, fills and missing values. */
  ghost predicate Quiet(script: seq<Action>) {
    forall a :: a in script ==> !a.ClickSubmit? && !a.PressKey? && !a.AwaitTransition?
  }

  lemma {:induction false} QuietKeeps(s: Screen, script: seq<Action>, m: nat)
    requires Quiet(script) && m <= |script|
    ensures SameSubmissions(s, ShowAll(s, script[..m]))
    decreases m
  {
    if m == 0 {
    } else {
      QuietKeeps(s, script, m - 1);
      assert script[..m][..m - 1] == script[..m - 1];
      assert script[m - 1] in script;
    }
  }

  lemma {:induction false} FieldsQuiet(fields: seq<FormField>, values: map<string, string>)
    ensures Quiet(FieldsScript(fields, values))
  {
    if fields == [] {
    } else {
      FieldsQuiet(fields[..|fields| - 1], values);
    }
  }

  /** No later field uses the selector of the `j`-th. */
  ghost predicate LastOfSelector(fields: seq<FormField>, j: nat) {
    j < |fields| && forall i :: j < i < |fields| ==> fields[i].selector != fields[j].selector
  }

  /** The input of the `j`-th field holds the value of that field. */
  ghost predicate HoldsOwnValue(inputs: map<string, string>, f: FormField, values: map<string, string>) {
    && f.entryFieldId in values && f.selector in inputs
    && inputs[f.selector] == values[f.entryFieldId]
  }

  ghost predicate Filled(inputs: map<string, string>, fields: seq<FormField>, values: map<string, string>) {
    forall j: nat :: LastOfSelector(fields, j) ==> HoldsOwnValue(inputs, fields[j], values)
  }

  lemma ShowField(s: Screen, f: FormField, values: map<string, string>)
    requires f.entryFieldId in values
    ensures ShowAll(s, FieldScript(f, values)) == s.(inputs := s.inputs[f.selector := values[f.entryFieldId]])
  {
    var look, fill := [Locate(f.selector, f.control)], [Fill(f, values[f.entryFieldId])];
    ShowOne(s, look[0]);
    ShowJoin(s, look, [VerifyDomain]);
    ShowOne(s, VerifyDomain);
    ShowJoin(s, look + [VerifyDomain], fill);
    ShowOne(s, fill[0]);
    ShowJoin(s, look + [VerifyDomain] + fill, [VerifyDomain]);
    ShowOne(Show(s, fill[0]), VerifyDomain);
    assert FieldScript(f, values) == look + [VerifyDomain] + fill + [VerifyDomain];
  }

  lemma {:induction false} FieldsFilled(s: Screen, fields: seq<FormField>, values: map<string, string>)
    requires forall f :: f in fields ==> f.entryFieldId in values
    ensures Filled(ShowAll(s, FieldsScript(fields, values)).inputs, fields, values)
    decreases |fields|
  {
    if fields == [] {
    } else {
      var init, last := fields[..|fields| - 1], fields[|fields| - 1];
      FieldsFilled(s, init, values);
      ShowJoin(s, FieldsScript(init, values), FieldScript(last, values));
      ShowField(ShowAll(s, FieldsScript(init, values)), last, values);
      FilledNext(ShowAll(s, FieldsScript(init, values)).inputs, init, last, values);
      assert fields == init + [last];
    }
  }

  lemma FilledNext(inputs: map<string, string>, init: seq<FormField>, last: FormField, values: map<string, string>)
    requires Filled(inputs, init, values) && last.entryFieldId in values
    ensures Filled(inputs[last.selector := values[last.entryFieldId]], init + [last], values)
  {
    var fields, after := init + [last], inputs[last.selector := values[last.entryFieldId]];
    forall j: nat | LastOfSelector(fields, j) ensures HoldsOwnValue(after, fields[j], values) {
      if j < |init| {
        assert fields[|init|] == last && fields[j] == init[j];
        assert forall i :: j < i < |init| ==> init[i] == fields[i];
        assert LastOfSelector(init, j);
      }
    }
  }

  /** The part of a step before its control is pressed. */
  function BeforePress(s: FormStep, values: map<string, string>): seq<Action> {
    [VerifyDomain] + FieldsScript(s.fields, values) + [VerifyDomain] + [PressActions(s).0]
  }

  lemma StepParts(s: FormStep, values: map<string, string>)
    ensures StepScript(s, values) == BeforePress(s, values) + ([PressActions(s).1] + Waiting(s) + [VerifyDomain])
    ensures Quiet(BeforePress(s, values)) && Complete(BeforePress(s, values)) == FieldsGiven(s, values)
  {
    var v, fields := [VerifyDomain], FieldsScript(s.fields, values);
    FieldsQuiet(s.fields, values);
    FieldsComplete(s.fields, values);
    CompleteJoin(v, fields);
    CompleteJoin(v + fields, v);
    CompleteJoin(v + fields + v, [PressActions(s).0]);
    assert SubmitScript(s) == [PressActions(s).0] + ([PressActions(s).1] + Waiting(s));
  }

  function Waiting(s: FormStep): seq<Action> {
    match s.waitFor case None => [] case Some(w) => [AwaitTransition(w.selector, Timeout(w))]
  }

  /** The waits that the steps ask for: each after its own submission, with the step's timeout or 20 seconds. */
  function Waits(steps: seq<FormStep>): seq<(nat, string, nat)> {
    if steps == [] then []
    else
      var last := steps[|steps| - 1];
      Waits(steps[..|steps| - 1])
      + (match last.waitFor
         case None => []
         case Some(WaitFor(selector, None)) => [(|steps|, selector, 20_000)]
         case Some(WaitFor(selector, Some(ms))) => [(|steps|, selector, ms)])
  }

  /** The submissions are those of the steps, in order, each with every field of its step filled in. */
  ghost predicate Submitted(sent: seq<Sent>, steps: seq<FormStep>, values: map<string, string>) {
    && |sent| <= |steps|
    && forall i :: 0 <= i < |sent| ==>
         sent[i].submit == steps[i].submit && Filled(sent[i].inputs, steps[i].fields, values)
  }

  lemma BeforeShows(s: Screen, step: FormStep, values: map<string, string>)
    requires FieldsGiven(step, values)
    ensures SameSubmissions(s, ShowAll(s, BeforePress(step, values)))
    ensures Filled(ShowAll(s, BeforePress(step, values)).inputs, step.fields, values)
  {
    var v, fields, first := [VerifyDomain], FieldsScript(step.fields, values), PressActions(step).0;
    StepParts(step, values);
    QuietKeeps(s, BeforePress(step, values), |BeforePress(step, values)|);
    assert BeforePress(step, values)[..|BeforePress(step, values)|] == BeforePress(step, values);
    ShowOne(s, VerifyDomain);
    ShowJoin(s, v, fields);
    ShowJoin(s, v + fields, v);
    ShowOne(ShowAll(s, v + fields), VerifyDomain);
    ShowJoin(s, v + fields + v, [first]);
    ShowOne(ShowAll(s, v + fields + v), first);
    FieldsFilled(s, step.fields, values);
  }

  /** After a part of a step nothing more was submitted, or its own submission was, with its fields filled in. */
  lemma StepShows(s: Screen, step: FormStep, values: map<string, string>, m: nat)
    requires m <= |StepScript(step, values)| && Complete(StepScript(step, values)[..m])
    ensures var t := ShowAll(s, StepScript(step, values)[..m]);
            if m <= |BeforePress(step, values)| then SameSubmissions(s, t)
            else exists inputs :: t.sent == s.sent + [Sent(step.submit, inputs)] && Filled(inputs, step.fields, values)
  {
    var script, before := StepScript(step, values), BeforePress(step, values);
    StepParts(step, values);
    if m <= |before| {
      assert script[..m] == before[..m];
      QuietKeeps(s, before, m);
    } else {
      var rest := ([PressActions(step).1] + Waiting(step) + [VerifyDomain])[..m - |before|];
      assert script[..m] == before + rest;
      CompleteJoin(before, rest);
      BeforeShows(s, step, values);
      ShowJoin(s, before, rest);
      PressShows(ShowAll(s, before), step, rest);
    }
  }

  lemma PressShows(s: Screen, step: FormStep, rest: seq<Action>)
    requires rest != [] && rest <= [PressActions(step).1] + Waiting(step) + [VerifyDomain]
    ensures ShowAll(s, rest).sent == s.sent + [Sent(step.submit, s.inputs)]
  {
    var press, tail := [PressActions(step).1], rest[1..];
    assert rest == press + tail && tail <= Waiting(step) + [VerifyDomain];
    ShowJoin(s, press, tail);
    ShowOne(s, press[0]);
    TailShows(ShowAll(s, press), step, tail);
  }

  lemma TailShows(s: Screen, step: FormStep, tail: seq<Action>)
    requires tail <= Waiting(step) + [VerifyDomain]
    ensures ShowAll(s, tail).sent == s.sent
    ensures tail == Waiting(step) + [VerifyDomain] ==> ShowAll(s, tail).waits == s.waits + WaitOf(step, |s.sent|)
  {
    if tail == [] {
    } else if |tail| == 1 {
      assert tail == [tail[0]];
      ShowOne(s, tail[0]);
    } else {
      assert tail == [tail[0]] + [tail[1]];
      ShowJoin(s, [tail[0]], [tail[1]]);
      ShowOne(s, tail[0]);
      ShowOne(Show(s, tail[0]), tail[1]);
    }
  }

  function WaitOf(s: FormStep, n: nat): seq<(nat, string, nat)> {
    match s.waitFor case None => [] case Some(w) => [(n, w.selector, Timeout(w))]
  }

  lemma PressAndWait(s: Screen, step: FormStep)
    ensures ShowAll(s, [PressActions(step).1] + (Waiting(step) + [VerifyDomain])).waits
         == s.waits + WaitOf(step, |s.sent| + 1)
  {
    var press, tail := [PressActions(step).1], Waiting(step) + [VerifyDomain];
    ShowJoin(s, press, tail);
    ShowOne(s, press[0]);
    TailShows(ShowAll(s, press), step, tail);
  }

  lemma StepEnds(step: FormStep, values: map<string, string>)
    ensures StepScript(step, values)
         == BeforePress(step, values) + ([PressActions(step).1] + (Waiting(step) + [VerifyDomain]))
  {
    StepParts(step, values);
    assert [PressActions(step).1] + Waiting(step) + [VerifyDomain]
        == [PressActions(step).1] + (Waiting(step) + [VerifyDomain]);
  }

  lemma WholeStepShows(s: Screen, step: FormStep, values: map<string, string>)
    ensures ShowAll(s, StepScript(step, values)).waits == s.waits + WaitOf(step, |s.sent| + 1)
  {
    var before := BeforePress(step, values);
    StepParts(step, values);
    StepEnds(step, values);
    QuietKeeps(s, before, |before|);
    assert before[..|before|] == before;
    ShowJoin(s, before, [PressActions(step).1] + (Waiting(step) + [VerifyDomain]));
    PressAndWait(ShowAll(s, before), step);
  }

  lemma WaitsNext(steps: seq<FormStep>)
    requires steps != []
    ensures Waits(steps) == Waits(steps[..|steps| - 1]) + WaitOf(steps[|steps| - 1], |steps|)
  {
  }

  /** What a screen shows when the steps were done, the last of them perhaps only in part. */
  ghost predicate Shows(s: Screen, steps: seq<FormStep>, values: map<string, string>, whole: bool) {
    Submitted(s.sent, steps, values) && (whole ==> |s.sent| == |steps| && s.waits == Waits(steps))
  }

  /** The same for the first `m` actions of the script of all steps. */
  lemma {:induction false} ScriptShows(steps: seq<FormStep>, values: map<string, string>, m: nat)
    requires m <= |Script(steps, values)| && Complete(Script(steps, values)[..m])
    ensures Shows(ShowAll(BLANK, Script(steps, values)[..m]), steps, values, m == |Script(steps, values)|)
    decreases |steps|
  {
    if steps == [] {
    } else {
      var init, last := steps[..|steps| - 1], steps[|steps| - 1];
      assert steps == init + [last];
      var n := Earlier(init, last, values, m);
      ScriptShows(init, values, n);
      ShowsNext(init, last, values, m, n);
    }
  }

  /** How many of the first `m` actions belong to the earlier steps. */
  lemma Earlier(init: seq<FormStep>, last: FormStep, values: map<string, string>, m: nat) returns (n: nat)
    requires m <= |Script(init + [last], values)| && Complete(Script(init + [last], values)[..m])
    ensures n <= |Script(init, values)| && n == Min(m, |Script(init, values)|) && Complete(Script(init, values)[..n])
  {
    ScriptSplits(init, last, values, m);
    n := Min(m, |Script(init, values)|);
  }

  function Min(a: nat, b: nat): nat { if a < b then a else b }

  lemma ShowsNext(init: seq<FormStep>, last: FormStep, values: map<string, string>, m: nat, n: nat)
    requires m <= |Script(init + [last], values)| && Complete(Script(init + [last], values)[..m])
    requires n == Min(m, |Script(init, values)|)
    requires Shows(ShowAll(BLANK, Script(init, values)[..n]), init, values, n == |Script(init, values)|)
    ensures Shows(ShowAll(BLANK, Script(init + [last], values)[..m]), init + [last], values,
                  m == |Script(init + [last], values)|)
  {
    ScriptSplits(init, last, values, m);
    SplitShows(Script(init + [last], values), Script(init, values), init, last, values, m, n);
  }

  lemma SplitShows(all: seq<Action>, earlier: seq<Action>, init: seq<FormStep>, last: FormStep,
                   values: map<string, string>, m: nat, n: nat)
    requires Splits(all, earlier, StepScript(last, values), m) && n == Min(m, |earlier|)
    requires Shows(ShowAll(BLANK, earlier[..n]), init, values, n == |earlier|)
    ensures Shows(ShowAll(BLANK, all[..m]), init + [last], values, m == |all|)
  {
    if m < |earlier| {
      MoreSteps(ShowAll(BLANK, earlier[..m]), init, last, values);
    } else {
      LastStepShows(earlier, init, last, values, m - |earlier|);
    }
  }

  lemma MoreSteps(s: Screen, init: seq<FormStep>, last: FormStep, values: map<string, string>)
    requires Shows(s, init, values, false)
    ensures Shows(s, init + [last], values, false)
  {
  }

  lemma LastStepShows(earlier: seq<Action>, init: seq<FormStep>, last: FormStep, values: map<string, string>, m: nat)
    requires Shows(ShowAll(BLANK, earlier), init, values, true)
    requires m <= |StepScript(last, values)| && Complete(StepScript(last, values)[..m])
    ensures Shows(ShowAll(BLANK, earlier + StepScript(last, values)[..m]), init + [last], values,
                  m == |StepScript(last, values)|)
  {
    ShowJoin(BLANK, earlier, StepScript(last, values)[..m]);
    OneMoreStep(ShowAll(BLANK, earlier), init, last, values, m);
  }

  lemma ScriptAppend(init: seq<FormStep>, last: FormStep, values: map<string, string>)
    ensures Script(init + [last], values) == Script(init, values) + StepScript(last, values)
    ensures StepScript(last, values) != []
  {
    assert (init + [last])[..|init|] == init;
  }

  /** The first `m` actions: of the earlier steps only, or all of theirs and some of the last step's. */
  ghost predicate Splits(all: seq<Action>, earlier: seq<Action>, mine: seq<Action>, m: nat) {
    && m <= |all| && |all| == |earlier| + |mine| && mine != [] && earlier[..|earlier|] == earlier
    && (m < |earlier| ==> all[..m] == earlier[..m] && Complete(earlier[..m]))
    && (m >= |earlier| ==> all[..m] == earlier + mine[..m - |earlier|]
                           && Complete(earlier) && Complete(mine[..m - |earlier|]))
  }

  lemma SplitsAt(earlier: seq<Action>, mine: seq<Action>, m: nat)
    requires m <= |earlier + mine| && mine != [] && Complete((earlier + mine)[..m])
    ensures Splits(earlier + mine, earlier, mine, m)
  {
    TakeJoin(earlier, mine, m);
    if m >= |earlier| { CompleteJoin(earlier, mine[..m - |earlier|]); }
  }

  lemma ScriptSplits(init: seq<FormStep>, last: FormStep, values: map<string, string>, m: nat)
    requires m <= |Script(init + [last], values)| && Complete(Script(init + [last], values)[..m])
    ensures Splits(Script(init + [last], values), Script(init, values), StepScript(last, values), m)
  {
    ScriptAppend(init, last, values);
    SplitsAt(Script(init, values), StepScript(last, values), m);
  }

  lemma TakeJoin(a: seq<Action>, b: seq<Action>, m: nat)
    requires m <= |a + b|
    ensures (a + b)[..m] == if m < |a| then a[..m] else a + b[..m - |a|]
    ensures a[..|a|] == a
  {
  }

  /** One more step, or a part of it, behind completed ones. */
  lemma OneMoreStep(s: Screen, init: seq<FormStep>, last: FormStep, values: map<string, string>, m: nat)
    requires Shows(s, init, values, true)
    requires m <= |StepScript(last, values)| && Complete(StepScript(last, values)[..m])
    ensures Shows(ShowAll(s, StepScript(last, values)[..m]), init + [last], values, m == |StepScript(last, values)|)
  {
    StepShows(s, last, values, m);
    if m == |StepScript(last, values)| {
      assert StepScript(last, values)[..m] == StepScript(last, values);
      WholeStepShows(s, last, values);
      WaitsNext(init + [last]);
      assert (init + [last])[..|init|] == init;
      StepIsLonger(last, values);
    }
  }

  lemma StepIsLonger(s: FormStep, values: map<string, string>)
    ensures |BeforePress(s, values)| < |StepScript(s, values)|
  {
    StepEnds(s, values);
  }

  /** Whatever the page does: the submissions of a run are the submit actions of the first steps, in order, and
      each finds every input of its step holding that field's own value.  A run without a failure submits every
      step, and after each submission waits for what that step names. */
  lemma SubmitsTheForm(steps: seq<FormStep>, values: map<string, string>, run: Log, failed: bool)
    requires IsRun(Script(steps, values), run, failed)
    ensures Submitted(ScreenOf(run).sent, steps, values)
    ensures !failed ==> |ScreenOf(run).sent| == |steps| && ScreenOf(run).waits == Waits(steps)
  {
    ScreenOfRun(Script(steps, values), run, failed);
    ScriptShows(steps, values, Done(run, failed));
  }

  /** Every action on the page stands between domain checks: a fill behind the lookup of its own input, a
      submission behind the lookup of its own control and before at most the wait for the next page. */
  ghost predicate FramedAt(script: seq<Action>, k: nat) {
    k < |script| &&
    match script[k]
    case Fill(f, _) =>
      && 2 <= k < |script| - 1 && script[k - 2] == Locate(f.selector, f.control)
      && script[k - 1] == VerifyDomain && script[k + 1] == VerifyDomain
    case ClickSubmit(selector) =>
      && k >= 2 && script[k - 2] == VerifyDomain && script[k - 1] == FindSubmit(selector) && CheckedAfter(script, k)
    case PressKey(selector) =>
      && k >= 2 && script[k - 2] == VerifyDomain && script[k - 1].Locate? && script[k - 1].selector == selector
      && CheckedAfter(script, k)
    case _ => true
  }

  ghost predicate CheckedAfter(script: seq<Action>, k: nat) {
    || (k + 1 < |script| && script[k + 1] == VerifyDomain)
    || (k + 2 < |script| && script[k + 1].AwaitTransition? && script[k + 2] == VerifyDomain)
  }

  ghost predicate Framed(script: seq<Action>) { forall k: nat :: k < |script| ==> FramedAt(script, k) }

  lemma FramedJoin(a: seq<Action>, b: seq<Action>)
    requires Framed(a) && Framed(b)
    ensures Framed(a + b)
  {
    forall k: nat | k < |a + b| ensures FramedAt(a + b, k) {
      if k < |a| {
        assert FramedAt(a, k);
      } else {
        assert FramedAt(b, k - |a|);
      }
    }
  }

  lemma {:induction false} FieldsFramed(fields: seq<FormField>, values: map<string, string>)
    ensures Framed(FieldsScript(fields, values))
  {
    if fields == [] {
    } else {
      FieldsFramed(fields[..|fields| - 1], values);
      FramedJoin(FieldsScript(fields[..|fields| - 1], values), FieldScript(fields[|fields| - 1], values));
    }
  }

  lemma StepFramed(s: FormStep, values: map<string, string>)
    ensures Framed(StepScript(s, values))
  {
    var v, fields := [VerifyDomain], FieldsScript(s.fields, values);
    FieldsFramed(s.fields, values);
    FramedJoin(v, fields);
    FramedJoin(v + fields, v + SubmitScript(s) + v);
    assert StepScript(s, values) == (v + fields) + (v + SubmitScript(s) + v);
  }

  lemma {:induction false} ScriptFramed(steps: seq<FormStep>, values: map<string, string>)
    ensures Framed(Script(steps, values))
  {
    if steps == [] {
    } else {
      ScriptFramed(steps[..|steps| - 1], values);
      StepFramed(steps[|steps| - 1], values);
      FramedJoin(Script(steps[..|steps| - 1], values), StepScript(steps[|steps| - 1], values));
    }
  }

  /** In every run a submission directly follows the lookup of its control, which follows a passed domain check. */
  lemma SubmissionsFollowPassingChecks(steps: seq<FormStep>, values: map<string, string>, run: Log, failed: bool,
                                       k: nat)
    requires IsRun(Script(steps, values), run, failed) && k < |run| && (run[k].0.ClickSubmit? || run[k].0.PressKey?)
    ensures k >= 2 && run[k - 2] == (VerifyDomain, true) && run[k - 1].1
    ensures run[k].0.ClickSubmit? ==> run[k - 1].0 == FindSubmit(run[k].0.selector)
    ensures run[k].0.PressKey? ==> run[k - 1].0.Locate? && run[k - 1].0.selector == run[k].0.selector
  {
    ScriptFramed(steps, values);
    assert FramedAt(Script(steps, values), k);
  }

  /** A run that reports success checked the domain after everything it did. */
  lemma SuccessIsCheckedLast(steps: seq<FormStep>, values: map<string, string>, run: Log, k: nat)
    requires IsRun(Script(steps, values), run, false) && k < |run|
    requires run[k].0.Fill? || run[k].0.ClickSubmit? || run[k].0.PressKey?
    ensures (k + 1 < |run| && run[k + 1] == (VerifyDomain, true))
         || (k + 2 < |run| && run[k + 1].0.AwaitTransition? && run[k + 2] == (VerifyDomain, true))
  {
    ScriptFramed(steps, values);
    assert FramedAt(Script(steps, values), k);
  }

  /** Enter is pressed in the control of the first field with that selector, or in a text input. */
  lemma {:induction false} ControlAtIs(fields: seq<FormField>, selector: string)
    ensures forall j :: 0 <= j < |fields| && fields[j].selector == selector
                        && (forall i :: 0 <= i < j ==> fields[i].selector != selector) ==>
              ControlAt(fields, selector) == fields[j].control
    ensures (forall j :: 0 <= j < |fields| ==> fields[j].selector != selector) ==>
              ControlAt(fields, selector) == PlainText
    decreases |fields|
  {
    if fields == [] || fields[0].selector == selector {
    } else {
      var rest := fields[1..];
      ControlAtIs(rest, selector);
      assert forall j :: 0 <= j < |rest| ==> rest[j] == fields[j + 1];
      forall j | 0 < j < |fields| && fields[j].selector == selector
                 && (forall i :: 0 <= i < j ==> fields[i].selector != selector)
        ensures ControlAt(fields, selector) == fields[j].control
      {
        assert rest[j - 1] == fields[j];
        assert forall i :: 0 <= i < j - 1 ==> rest[i] == fields[i + 1];
      }
    }
  }

  // ----- Which names are sensitive -----

  function LowerAll(s: string): string {
    if s == [] then [] else [Lower(s[0])] + LowerAll(s[1..])
  }

  lemma {:induction false} LowerAllAt(s: string)
    ensures |LowerAll(s)| == |s| && forall i :: 0 <= i < |s| ==> LowerAll(s)[i] == Lower(s[i])
  {
    if s == [] {
    } else {
      LowerAllAt(s[1..]);
    }
  }

  ghost predicate Within(word: string, text: string) { exists a: string, b: string :: text == a + word + b }

  /** The test finds a word exactly when the lower-cased name contains it. */
  lemma {:induction false} ContainsWordExactly(s: string, word: string)
    ensures ContainsWord(s, word) <==> Within(word, LowerAll(s))
    decreases |s|
  {
    LowerAllAt(s);
    var low := LowerAll(s);
    if StartsWithWord(s, word) {
      assert low == [] + word + low[|word|..];
    } else if s == [] {
      NotWithinEmpty(word);
    } else {
      ContainsWordExactly(s[1..], word);
      WithinTail(word, low);
      assert low[1..] == LowerAll(s[1..]);
      assert !(word <= low);
    }
  }

  lemma NotWithinEmpty(word: string)
    ensures Within(word, []) ==> word == []
  {
    if a: string, b: string :| [] == a + word + b { assert |a + word + b| == 0; }
  }

  lemma WithinTail(word: string, text: string)
    requires text != []
    ensures Within(word, text) <==> word <= text || Within(word, text[1..])
  {
    if word <= text { assert text == [] + word + text[|word|..]; }
    if a: string, b: string :| text == a + word + b {
      if a == [] {
        assert word <= text;
      } else {
        assert text[1..] == a[1..] + word + b;
      }
    }
    if a: string, b: string :| text[1..] == a + word + b { assert text == ([text[0]] + a) + word + b; }
  }
}
