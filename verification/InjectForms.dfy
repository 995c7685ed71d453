/** Filling and submitting a credential form: `parseInjectValues` of `src/inject-contract.ts` and
    `fillAndSubmit` of `packages/playwright-mcp/src/server.ts`.

    The form is one that `parseInjectForm` has accepted.  What the page does to each action is an
    argument; the domain check is one of the actions.
 */
module InjectForms {
  import opened Bytes

  datatype Control = Username | Password | PlainText | Email | Tel | Otp
  datatype FormField = FormField(entryFieldId: string, selector: string, control: Control)
  datatype Submit = Click(selector: string) | PressEnter(selector: string)
  datatype WaitFor = WaitFor(selector: string, timeoutMs: Option<nat>)
  datatype FormStep = FormStep(fields: seq<FormField>, submit: Submit, waitFor: Option<WaitFor>)
  datatype Form = Form(steps: seq<FormStep>)

  // ----- Values -----

  /** One element of the value list as `JSON.parse` delivers it: `id` and `value` are absent when the
      member is missing or not a string. */
  datatype Item = NotRecord | Record(keys: set<string>, id: Option<string>, value: Option<string>)
  datatype ItemList = NotAnArray | Items(items: seq<Item>)

  const MAX_VALUE := 64 * 1024

  /** The field ids that the form asks for. */
  function Required(form: Form): set<string> {
    set s, f | s in form.steps && f in s.fields :: f.entryFieldId
  }

  /** An object with no more than the two known members, an id and a bounded text. */
  predicate ItemOk(item: Item) {
    && item.Record? && item.keys <= {"entryFieldId", "value"}
    && item.id.Some? && item.value.Some? && |item.value.value| <= MAX_VALUE
  }

  function IdOf(item: Item): string
    requires ItemOk(item)
  {
    item.id.value
  }

  function ValueOf(item: Item): string
    requires ItemOk(item)
  {
    item.value.value
  }

  /** The items name each required field exactly once, and nothing else. */
  ghost predicate Bijective(items: seq<Item>, required: set<string>) {
    && (forall i :: 0 <= i < |items| ==> ItemOk(items[i]) && IdOf(items[i]) in required)
    && (forall i, j :: 0 <= i < j < |items| ==> IdOf(items[i]) != IdOf(items[j]))
    && (forall id :: id in required ==> exists i :: 0 <= i < |items| && IdOf(items[i]) == id)
  }

  /** What the loop of `parseInjectValues` knows after `n` items. */
  ghost predicate Scanned(items: seq<Item>, n: nat, required: set<string>, seen: set<string>,
                          values: seq<(string, string)>) {
    && n <= |items| && |values| == n && seen <= required
    && (forall i :: 0 <= i < n ==>
          ItemOk(items[i]) && IdOf(items[i]) in seen && values[i] == (IdOf(items[i]), ValueOf(items[i])))
    && (forall i, j :: 0 <= i < j < n ==> IdOf(items[i]) != IdOf(items[j]))
    && (forall id :: id in seen ==> exists i :: 0 <= i < n && IdOf(items[i]) == id)
  }

  lemma ScanNext(items: seq<Item>, n: nat, required: set<string>, seen: set<string>, values: seq<(string, string)>)
    requires Scanned(items, n, required, seen, values) && n < |items|
    ensures !ItemOk(items[n]) || IdOf(items[n]) !in required || IdOf(items[n]) in seen ==> !Bijective(items, required)
    ensures ItemOk(items[n]) && IdOf(items[n]) in required && IdOf(items[n]) !in seen ==>
              Scanned(items, n + 1, required, seen + {IdOf(items[n])}, values + [(IdOf(items[n]), ValueOf(items[n]))])
  {
  }

  lemma ScanEnd(items: seq<Item>, required: set<string>, seen: set<string>, values: seq<(string, string)>)
    requires Scanned(items, |items|, required, seen, values)
    ensures |seen| == |required| <==> Bijective(items, required)
  {
    if |seen| == |required| { SameSize(seen, required); }
    assert Bijective(items, required) ==> required == seen by {
      assert forall i :: 0 <= i < |items| ==> IdOf(items[i]) in seen;
    }
  }

  lemma {:induction false} SameSize(a: set<string>, b: set<string>)
    requires a <= b && |a| == |b|
    ensures a == b
    decreases |a|
  {
    if a != {} {
      var x :| x in a;
      SameSize(a - {x}, b - {x});
      assert a == (a - {x}) + {x} && b == (b - {x}) + {x};
    } else {
      assert |b| == 0;
    }
  }

  /** `parseInjectValues`: accepts exactly the lists that are in bijection with the required fields. */
  method ParseValues(value: ItemList, form: Form) returns (r: Option<seq<(string, string)>>)
    ensures r.Some? <==> value.Items? && Bijective(value.items, Required(form))
    ensures r.Some? ==> |r.value| == |value.items|
                        && forall i :: 0 <= i < |r.value| ==>
                             ItemOk(value.items[i]) && r.value[i] == (IdOf(value.items[i]), ValueOf(value.items[i]))
  {
    if !value.Items? { return None; }
    var required := Required(form);
    var seen: set<string> := {};
    var values: seq<(string, string)> := [];
    for i := 0 to |value.items|
      invariant Scanned(value.items, i, required, seen, values)
    {
      var item := value.items[i];
      ScanNext(value.items, i, required, seen, values);
      if !ItemOk(item) || IdOf(item) !in required || IdOf(item) in seen { return None; }
      seen := seen + {IdOf(item)};
      values := values + [(IdOf(item), ValueOf(item))];
    }
    ScanEnd(value.items, required, seen, values);
    return if |seen| == |required| then Some(values) else None;
  }

  /** `new Map(values)`: the last pair of an id wins. */
  function ToMap(values: seq<(string, string)>): map<string, string> {
    if values == [] then map[]
    else ToMap(values[..|values| - 1])[values[|values| - 1].0 := values[|values| - 1].1]
  }

  lemma {:induction false} ToMapHas(values: seq<(string, string)>, i: nat)
    requires i < |values|
    ensures values[i].0 in ToMap(values)
    ensures (forall j :: i < j < |values| ==> values[j].0 != values[i].0) ==> ToMap(values)[values[i].0] == values[i].1
    decreases |values|
  {
    if i == |values| - 1 {
    } else {
      ToMapHas(values[..|values| - 1], i);
    }
  }

  /** Accepted values give every required field its own value. */
  lemma {:induction false} AcceptedValuesAreComplete(items: seq<Item>, required: set<string>,
                                                     values: seq<(string, string)>)
    requires Bijective(items, required) && |values| == |items|
    requires forall i {:trigger values[i]} {:trigger items[i]} :: 0 <= i < |values| ==>
               values[i] == (IdOf(items[i]), ValueOf(items[i]))
    ensures forall id :: id in required ==> id in ToMap(values)
    ensures forall i :: 0 <= i < |items| ==>
              IdOf(items[i]) in ToMap(values) && ToMap(values)[IdOf(items[i])] == ValueOf(items[i])
  {
    forall k: nat | k < |items|
      ensures IdOf(items[k]) in ToMap(values) && ToMap(values)[IdOf(items[k])] == ValueOf(items[k])
    {
      var v := values[k];
      assert forall j :: k < j < |values| ==> values[j].0 != v.0;
      ToMapHas(values, k);
    }
  }

  // ----- Actions -----

  datatype Action =
    | VerifyDomain
    | MissingValue(id: string)
    | Locate(selector: string, control: Control)
    | Fill(field: FormField, value: string)
    | FindSubmit(selector: string)
    | ClickSubmit(selector: string)
    | PressKey(selector: string)
    | AwaitTransition(selector: string, timeoutMs: nat)
    | Clear(field: FormField)

  /** A field without a value always fails; the page decides about the rest. */
  predicate Succeeds(a: Action, pageOk: bool) { pageOk && !a.MissingValue? }

  type Log = seq<(Action, bool)>

  function FieldScript(f: FormField, values: map<string, string>): seq<Action> {
    if f.entryFieldId in values
    then [Locate(f.selector, f.control), VerifyDomain, Fill(f, values[f.entryFieldId]), VerifyDomain]
    else [MissingValue(f.entryFieldId)]
  }

  function FieldsScript(fields: seq<FormField>, values: map<string, string>): seq<Action> {
    if fields == [] then []
    else FieldsScript(fields[..|fields| - 1], values) + FieldScript(fields[|fields| - 1], values)
  }

  function ControlAt(fields: seq<FormField>, selector: string): Control {
    if fields == [] then PlainText
    else if fields[0].selector == selector then fields[0].control
    else ControlAt(fields[1..], selector)
  }

  function PressActions(s: FormStep): (Action, Action) {
    match s.submit
    case Click(selector) => (FindSubmit(selector), ClickSubmit(selector))
    case PressEnter(selector) => (Locate(selector, ControlAt(s.fields, selector)), PressKey(selector))
  }

  function Timeout(w: WaitFor): nat { if w.timeoutMs.Some? then w.timeoutMs.value else 20_000 }

  function SubmitScript(s: FormStep): seq<Action> {
    [PressActions(s).0, PressActions(s).1]
    + (match s.waitFor case None => [] case Some(w) => [AwaitTransition(w.selector, Timeout(w))])
  }

  /** Everything that is attempted for one step, if nothing fails. */
  function StepScript(s: FormStep, values: map<string, string>): seq<Action> {
    [VerifyDomain] + FieldsScript(s.fields, values) + [VerifyDomain] + SubmitScript(s) + [VerifyDomain]
  }

  function Script(steps: seq<FormStep>, values: map<string, string>): seq<Action> {
    if steps == [] then []
    else Script(steps[..|steps| - 1], values) + StepScript(steps[|steps| - 1], values)
  }

  /** The log follows the script and stops at the first failure. */
  ghost predicate IsRun(script: seq<Action>, log: Log, failed: bool) {
    && |log| <= |script| && (failed ==> log != []) && (!failed ==> |log| == |script|)
    && (forall i :: 0 <= i < |log| ==> log[i].0 == script[i])
    && (forall i :: 0 <= i < |log| ==> log[i].1 == !(failed && i == |log| - 1))
    && (forall i :: 0 <= i < |log| && log[i].0.MissingValue? ==> !log[i].1)
  }

  /** The fields that were filled. */
  function Completed(log: Log): seq<FormField> {
    if log == [] then []
    else Completed(log[..|log| - 1])
         + (if log[|log| - 1].0.Fill? && log[|log| - 1].1 then [log[|log| - 1].0.field] else [])
  }

  /** What has been attempted, which fields are filled, and whether everything passed so far. */
  datatype Progress = Progress(log: Log, filled: seq<FormField>, ok: bool)

  /** One attempt, unless an earlier one failed. */
  function Attempt(a: Action, p: Progress, answer: nat -> bool): Progress {
    if !p.ok then p
    else
      var ok := Succeeds(a, answer(|p.log|));
      Progress(p.log + [(a, ok)], if ok && a.Fill? then p.filled + [a.field] else p.filled, ok)
  }

  function Exec(script: seq<Action>, p: Progress, answer: nat -> bool): Progress {
    if script == [] then p
    else Attempt(script[|script| - 1], Exec(script[..|script| - 1], p, answer), answer)
  }

  lemma {:induction false} ExecJoin(a: seq<Action>, b: seq<Action>, p: Progress, answer: nat -> bool)
    ensures Exec(a + b, p, answer) == Exec(b, Exec(a, p, answer), answer)
    decreases |b|
  {
    if b == [] {
      assert a + b == a;
    } else {
      assert (a + b)[..|a + b| - 1] == a + b[..|b| - 1];
      ExecJoin(a, b[..|b| - 1], p, answer);
    }
  }

  lemma {:induction false} ExecFailed(script: seq<Action>, p: Progress, answer: nat -> bool)
    requires !p.ok
    ensures Exec(script, p, answer) == p
  {
    if script == [] {
    } else {
      ExecFailed(script[..|script| - 1], p, answer);
    }
  }

  lemma ExecOne(a: Action, p: Progress, answer: nat -> bool)
    ensures Exec([a], p, answer) == Attempt(a, p, answer)
  {
    assert [a][..0] == [];
  }

  /** An execution is a run of its script, and fills exactly the fields whose fill succeeded. */
  lemma {:induction false} ExecIsRun(script: seq<Action>, start: Log, answer: nat -> bool) returns (run: Log)
    ensures var p := Exec(script, Progress(start, [], true), answer);
            p.log == start + run && IsRun(script, run, !p.ok) && p.filled == Completed(run)
  {
    var p := Progress(start, [], true);
    if script == [] { return []; }
    var before := script[..|script| - 1];
    run := ExecIsRun(before, start, answer);
    var q := Exec(before, p, answer);
    if q.ok {
      run := ExtendRun(script, run, q, start, answer);
    }
  }

  lemma ExtendRun(script: seq<Action>, run: Log, q: Progress, start: Log, answer: nat -> bool) returns (longer: Log)
    requires script != [] && q.ok && q.log == start + run && IsRun(script[..|script| - 1], run, false)
             && q.filled == Completed(run)
    ensures var p := Attempt(script[|script| - 1], q, answer);
            p.log == start + longer && IsRun(script, longer, !p.ok) && p.filled == Completed(longer)
  {
    var p := Attempt(script[|script| - 1], q, answer);
    longer := run + [(script[|script| - 1], p.ok)];
    assert longer[..|longer| - 1] == run;
  }

  lemma {:induction false} FieldsPrefix(fields: seq<FormField>, n: nat, values: map<string, string>)
    requires n <= |fields|
    ensures FieldsScript(fields[..n], values) <= FieldsScript(fields, values)
    decreases |fields|
  {
    if n == |fields| {
      assert fields[..n] == fields;
    } else {
      FieldsPrefix(fields[..|fields| - 1], n, values);
      assert fields[..|fields| - 1][..n] == fields[..n];
    }
  }

  lemma {:induction false} ScriptPrefix(steps: seq<FormStep>, n: nat, values: map<string, string>)
    requires n <= |steps|
    ensures Script(steps[..n], values) <= Script(steps, values)
    decreases |steps|
  {
    if n == |steps| {
      assert steps[..n] == steps;
    } else {
      ScriptPrefix(steps[..|steps| - 1], n, values);
      assert steps[..|steps| - 1][..n] == steps[..n];
    }
  }

  function Actions(log: Log): seq<Action> {
    if log == [] then [] else Actions(log[..|log| - 1]) + [log[|log| - 1].0]
  }

  lemma ActionsAppend(log: Log, a: Action, ok: bool)
    ensures Actions(log + [(a, ok)]) == Actions(log) + [a]
  {
    assert (log + [(a, ok)])[..|log|] == log;
  }

  // ----- Filling -----

  function Lower(c: char): char { if 'A' <= c <= 'Z' then c - 'A' + 'a' else c }

  predicate StartsWithWord(s: string, word: string) {
    |word| <= |s| && forall j :: 0 <= j < |word| ==> Lower(s[j]) == word[j]
  }

  predicate ContainsWord(s: string, word: string) {
    StartsWithWord(s, word) || (s != [] && ContainsWord(s[1..], word))
  }

  /** `isSensitiveField` */
  predicate Sensitive(f: FormField) {
    || f.control.Password? || f.control.Otp?
    || ContainsWord(f.entryFieldId, "password") || ContainsWord(f.entryFieldId, "passcode")
    || ContainsWord(f.entryFieldId, "otp") || ContainsWord(f.entryFieldId, "totp")
    || ContainsWord(f.entryFieldId, "secret") || ContainsWord(f.entryFieldId, "token")
  }

  /** The clearing attempts for the filled fields, last filled first. */
  function Clearing(filled: seq<FormField>, sensitive: FormField -> bool): seq<Action> {
    if filled == [] then []
    else (if sensitive(filled[|filled| - 1]) then [Clear(filled[|filled| - 1])] else [])
         + Clearing(filled[..|filled| - 1], sensitive)
  }

  lemma ClearingStep(filled: seq<FormField>, k: nat, sensitive: FormField -> bool)
    requires k < |filled|
    ensures Clearing(filled[..k + 1], sensitive)
         == (if sensitive(filled[k]) then [Clear(filled[k])] else []) + Clearing(filled[..k], sensitive)
  {
    assert filled[..k + 1][..k] == filled[..k];
  }

  /** How many of the fields after the `i`-th are sensitive. */
  function SensitiveAfter(filled: seq<FormField>, i: nat, sensitive: FormField -> bool): nat
    requires i <= |filled|
    decreases |filled|
  {
    if i == |filled| then 0
    else (if sensitive(filled[|filled| - 1]) then 1 else 0) + SensitiveAfter(filled[..|filled| - 1], i, sensitive)
  }

  /** Clearing attempts every sensitive field exactly once, in the reverse of the order of filling:
      the attempt for a field comes after those for all sensitive fields filled later. */
  lemma {:induction false} EverySensitiveFillIsCleared(filled: seq<FormField>, i: nat, sensitive: FormField -> bool)
    requires i < |filled|
    ensures |Clearing(filled, sensitive)| == SensitiveAfter(filled, 0, sensitive)
    ensures sensitive(filled[i]) ==>
              && SensitiveAfter(filled, i + 1, sensitive) < |Clearing(filled, sensitive)|
              && Clearing(filled, sensitive)[SensitiveAfter(filled, i + 1, sensitive)] == Clear(filled[i])
    decreases |filled|
  {
    var shorter := filled[..|filled| - 1];
    if i < |shorter| {
      EverySensitiveFillIsCleared(shorter, i, sensitive);
    } else if shorter != [] {
      EverySensitiveFillIsCleared(shorter, 0, sensitive);
    }
  }

  /** The page: what it answers to the n-th action, and what has been attempted. */
  class Page {
    const answer: nat -> bool
    var log: Log

    constructor (answer: nat -> bool)
      ensures this.answer == answer && log == []
    {
      this.answer := answer;
      log := [];
    }

    method Do(a: Action) returns (ok: bool)
      modifies this
      ensures log == old(log) + [(a, ok)] && ok == Succeeds(a, answer(|old(log)|))
    {
      ok := answer(|log|) && !a.MissingValue?;
      log := log + [(a, ok)];
    }

    ghost function Now(filled: seq<FormField>, ok: bool): Progress
      reads this
    {
      Progress(log, filled, ok)
    }
  }

  lemma ExecField(f: FormField, values: map<string, string>, p: Progress, answer: nat -> bool)
    ensures Exec(FieldScript(f, values), p, answer)
         == if f.entryFieldId !in values then Attempt(MissingValue(f.entryFieldId), p, answer)
            else Attempt(VerifyDomain,
                         Attempt(Fill(f, values[f.entryFieldId]),
                                 Attempt(VerifyDomain, Attempt(Locate(f.selector, f.control), p, answer), answer),
                                 answer), answer)
  {
    if f.entryFieldId !in values {
      ExecOne(MissingValue(f.entryFieldId), p, answer);
    } else {
      var a, d := Locate(f.selector, f.control), Fill(f, values[f.entryFieldId]);
      var q := Exec([a], p, answer);
      ExecOne(a, p, answer);
      ExecJoin([a], [VerifyDomain], p, answer);
      ExecOne(VerifyDomain, q, answer);
      ExecJoin([a] + [VerifyDomain], [d], p, answer);
      ExecOne(d, Exec([a] + [VerifyDomain], p, answer), answer);
      ExecJoin([a] + [VerifyDomain] + [d], [VerifyDomain], p, answer);
      ExecOne(VerifyDomain, Exec([a] + [VerifyDomain] + [d], p, answer), answer);
      assert [a] + [VerifyDomain] + [d] + [VerifyDomain] == FieldScript(f, values);
    }
  }

  /** Once a script has failed, a longer one does nothing more. */
  lemma ExecStops(script: seq<Action>, whole: seq<Action>, p: Progress, answer: nat -> bool)
    requires script <= whole && !Exec(script, p, answer).ok
    ensures Exec(whole, p, answer) == Exec(script, p, answer)
  {
    var rest := whole[|script|..];
    ExecJoin(script, rest, p, answer);
    ExecFailed(rest, Exec(script, p, answer), answer);
    assert script + rest == whole;
  }

  lemma ExecPart(whole: seq<Action>, before: seq<Action>, part: seq<Action>, both: seq<Action>, p: Progress,
                 answer: nat -> bool)
    requires both == before + part && both <= whole
    ensures Exec(part, Exec(before, p, answer), answer) == Exec(both, p, answer)
    ensures !Exec(both, p, answer).ok ==> Exec(whole, p, answer) == Exec(both, p, answer)
  {
    ExecJoin(before, part, p, answer);
    if !Exec(both, p, answer).ok { ExecStops(both, whole, p, answer); }
  }

  lemma FieldsPart(fields: seq<FormField>, i: nat, values: map<string, string>)
    requires i < |fields|
    ensures FieldsScript(fields[..i + 1], values) == FieldsScript(fields[..i], values) + FieldScript(fields[i], values)
    ensures FieldsScript(fields[..i + 1], values) <= FieldsScript(fields, values)
  {
    assert fields[..i + 1][..i] == fields[..i];
    FieldsPrefix(fields, i + 1, values);
  }

  lemma StepsPart(steps: seq<FormStep>, i: nat, values: map<string, string>)
    requires i < |steps|
    ensures Script(steps[..i + 1], values) == Script(steps[..i], values) + StepScript(steps[i], values)
    ensures Script(steps[..i + 1], values) <= Script(steps, values)
  {
    assert steps[..i + 1][..i] == steps[..i];
    ScriptPrefix(steps, i + 1, values);
  }

  lemma ExecSubmit(s: FormStep, p: Progress, answer: nat -> bool)
    ensures Exec(SubmitScript(s), p, answer)
         == var pressed := Attempt(PressActions(s).1, Attempt(PressActions(s).0, p, answer), answer);
            if s.waitFor.None? then pressed
            else Attempt(AwaitTransition(s.waitFor.value.selector, Timeout(s.waitFor.value)), pressed, answer)
  {
    var first, second := PressActions(s).0, PressActions(s).1;
    ExecJoin([first], [second], p, answer);
    ExecOne(first, p, answer);
    ExecOne(second, Attempt(first, p, answer), answer);
    assert [first] + [second] == [first, second];
    match s.waitFor
    case None =>
      assert SubmitScript(s) == [first, second];
    case Some(w) =>
      var third := AwaitTransition(w.selector, Timeout(w));
      ExecJoin([first, second], [third], p, answer);
      ExecOne(third, Exec([first, second], p, answer), answer);
  }

  lemma ExecStep(s: FormStep, values: map<string, string>, p: Progress, answer: nat -> bool)
    ensures Exec(StepScript(s, values), p, answer)
         == Attempt(VerifyDomain,
                    Exec(SubmitScript(s),
                         Attempt(VerifyDomain,
                                 Exec(FieldsScript(s.fields, values), Attempt(VerifyDomain, p, answer), answer),
                                 answer), answer), answer)
  {
    var fields, submit, v := FieldsScript(s.fields, values), SubmitScript(s), [VerifyDomain];
    ExecOne(VerifyDomain, p, answer);
    ExecJoin(v, fields, p, answer);
    ExecJoin(v + fields, v, p, answer);
    ExecOne(VerifyDomain, Exec(v + fields, p, answer), answer);
    ExecJoin(v + fields + v, submit, p, answer);
    ExecJoin(v + fields + v + submit, v, p, answer);
    ExecOne(VerifyDomain, Exec(v + fields + v + submit, p, answer), answer);
  }

  /** One field: find its value and its input, check the domain, fill, check the domain again. */
  method FillField(page: Page, field: FormField, values: map<string, string>, before: seq<FormField>)
    returns (ok: bool, filled: seq<FormField>)
    modifies page
    ensures page.Now(filled, ok) == Exec(FieldScript(field, values), old(page.Now(before, true)), page.answer)
  {
    ExecField(field, values, page.Now(before, true), page.answer);
    filled := before;
    if field.entryFieldId !in values {
      ok := page.Do(MissingValue(field.entryFieldId));
      return;
    }
    var value := values[field.entryFieldId];
    ok := page.Do(Locate(field.selector, field.control));
    if !ok { return; }
    ok := page.Do(VerifyDomain);
    if !ok { return; }
    ok := page.Do(Fill(field, value));
    if !ok { return; }
    filled := filled + [field];
    ok := page.Do(VerifyDomain);
  }

  /** The loop over the fields of one step. */
  method FillFields(page: Page, fields: seq<FormField>, values: map<string, string>, before: seq<FormField>)
    returns (ok: bool, filled: seq<FormField>)
    modifies page
    ensures page.Now(filled, ok) == Exec(FieldsScript(fields, values), old(page.Now(before, true)), page.answer)
  {
    filled, ok := before, true;
    for i := 0 to |fields|
      invariant ok && page.Now(filled, ok)
                   == Exec(FieldsScript(fields[..i], values), old(page.Now(before, true)), page.answer)
    {
      FieldsPart(fields, i, values);
      ExecPart(FieldsScript(fields, values), FieldsScript(fields[..i], values), FieldScript(fields[i], values),
               FieldsScript(fields[..i + 1], values), old(page.Now(before, true)), page.answer);
      ok, filled := FillField(page, fields[i], values, filled);
      if !ok { return; }
    }
    assert fields[..|fields|] == fields;
  }

  /** The submit action of a step and the wait for the next page. */
  method SubmitStep(page: Page, step: FormStep, ghost filled: seq<FormField>) returns (ok: bool)
    modifies page
    ensures page.Now(filled, ok) == Exec(SubmitScript(step), old(page.Now(filled, true)), page.answer)
  {
    ExecSubmit(step, page.Now(filled, true), page.answer);
    match step.submit {
      case Click(selector) =>
        ok := page.Do(FindSubmit(selector));
        if !ok { return; }
        ok := page.Do(ClickSubmit(selector));
      case PressEnter(selector) =>
        ok := page.Do(Locate(selector, ControlAt(step.fields, selector)));
        if !ok { return; }
        ok := page.Do(PressKey(selector));
    }
    if ok && step.waitFor.Some? {
      ok := page.Do(AwaitTransition(step.waitFor.value.selector, Timeout(step.waitFor.value)));
    }
  }

  /** One step of the form. */
  method FillStep(page: Page, step: FormStep, values: map<string, string>, before: seq<FormField>)
    returns (ok: bool, filled: seq<FormField>)
    modifies page
    ensures page.Now(filled, ok) == Exec(StepScript(step, values), old(page.Now(before, true)), page.answer)
  {
    ExecStep(step, values, page.Now(before, true), page.answer);
    filled := before;
    ok := page.Do(VerifyDomain);
    if !ok { StopsHere(step, values, page.Now(filled, ok), page.answer); return; }
    ok, filled := FillFields(page, step.fields, values, filled);
    if !ok { StopsHere(step, values, page.Now(filled, ok), page.answer); return; }
    ok := page.Do(VerifyDomain);
    if !ok { StopsHere(step, values, page.Now(filled, ok), page.answer); return; }
    ok := SubmitStep(page, step, filled);
    if !ok { return; }
    ok := page.Do(VerifyDomain);
  }

  lemma StopsHere(step: FormStep, values: map<string, string>, p: Progress, answer: nat -> bool)
    requires !p.ok
    ensures Exec(FieldsScript(step.fields, values), p, answer) == p && Exec(SubmitScript(step), p, answer) == p
  {
    ExecFailed(FieldsScript(step.fields, values), p, answer);
    ExecFailed(SubmitScript(step), p, answer);
  }

  /** The loop over the steps of the form, up to the first failure. */
  method FillSteps(page: Page, steps: seq<FormStep>, values: map<string, string>)
    returns (ok: bool, filled: seq<FormField>)
    modifies page
    ensures page.Now(filled, ok) == Exec(Script(steps, values), old(page.Now([], true)), page.answer)
  {
    filled, ok := [], true;
    for i := 0 to |steps|
      invariant ok && page.Now(filled, ok) == Exec(Script(steps[..i], values), old(page.Now([], true)), page.answer)
    {
      StepsPart(steps, i, values);
      ExecPart(Script(steps, values), Script(steps[..i], values), StepScript(steps[i], values),
               Script(steps[..i + 1], values), old(page.Now([], true)), page.answer);
      ok, filled := FillStep(page, steps[i], values, filled);
      if !ok { return; }
    }
    assert steps[..|steps|] == steps;
  }

  /** `fillAndSubmit`: on any failure the sensitive fields that were filled are cleared, last first,
      whatever the page answers to each attempt. */
  method FillAndSubmit(page: Page, form: Form, pairs: seq<(string, string)>)
    returns (ok: bool, ghost run: Log, ghost clears: Log)
    modifies page
    ensures page.log == old(page.log) + run + clears
    ensures IsRun(Script(form.steps, ToMap(pairs)), run, !ok)
    ensures Actions(clears) == if ok then [] else Clearing(Completed(run), Sensitive)
  {
    run := ExecIsRun(Script(form.steps, ToMap(pairs)), page.log, page.answer);
    var filled;
    ok, filled := FillSteps(page, form.steps, ToMap(pairs));
    clears := [];
    if ok { return; }
    clears := ClearFilled(page, filled, Sensitive);
  }

  method ClearFilled(page: Page, filled: seq<FormField>, sensitive: FormField -> bool) returns (ghost clears: Log)
    modifies page
    ensures page.log == old(page.log) + clears && Actions(clears) == Clearing(filled, sensitive)
  {
    clears := [];
    assert filled[..|filled|] == filled;
    for k := |filled| downto 0
      invariant page.log == old(page.log) + clears
      invariant Actions(clears) + Clearing(filled[..k], sensitive) == Clearing(filled, sensitive)
    {
      ClearingStep(filled, k, sensitive);
      if sensitive(filled[k]) {
        var answered := page.Do(Clear(filled[k]));
        ActionsAppend(clears, Clear(filled[k]), answered);
        clears := clears + [(Clear(filled[k]), answered)];
      }
    }
  }

  // ----- What every run keeps -----

  /** Every fill comes directly after a domain check. */
  ghost predicate Guarded(script: seq<Action>) {
    forall k :: 0 <= k < |script| && script[k].Fill? ==> k > 0 && script[k - 1] == VerifyDomain
  }

  lemma GuardedJoin(a: seq<Action>, b: seq<Action>)
    requires Guarded(a) && Guarded(b)
    ensures Guarded(a + b)
  {
    forall k | 0 <= k < |a + b| && (a + b)[k].Fill? ensures k > 0 && (a + b)[k - 1] == VerifyDomain {
      if k >= |a| { assert b[k - |a|].Fill?; }
    }
  }

  lemma {:induction false} FieldsGuarded(fields: seq<FormField>, values: map<string, string>)
    ensures Guarded(FieldsScript(fields, values))
  {
    if fields == [] {
    } else {
      FieldsGuarded(fields[..|fields| - 1], values);
      GuardedJoin(FieldsScript(fields[..|fields| - 1], values), FieldScript(fields[|fields| - 1], values));
    }
  }

  lemma {:induction false} ScriptGuarded(steps: seq<FormStep>, values: map<string, string>)
    ensures Guarded(Script(steps, values))
  {
    if steps == [] {
    } else {
      var last := steps[|steps| - 1];
      ScriptGuarded(steps[..|steps| - 1], values);
      FieldsGuarded(last.fields, values);
      GuardedJoin([VerifyDomain], FieldsScript(last.fields, values));
      GuardedJoin([VerifyDomain] + FieldsScript(last.fields, values), [VerifyDomain]);
      GuardedJoin([VerifyDomain] + FieldsScript(last.fields, values) + [VerifyDomain], SubmitScript(last));
      GuardedJoin([VerifyDomain] + FieldsScript(last.fields, values) + [VerifyDomain] + SubmitScript(last),
                  [VerifyDomain]);
      GuardedJoin(Script(steps[..|steps| - 1], values), StepScript(last, values));
    }
  }

  /** Whatever the page does, a value is entered only directly after a domain check that passed. */
  lemma FillsFollowPassingChecks(steps: seq<FormStep>, values: map<string, string>, run: Log, failed: bool, k: nat)
    requires IsRun(Script(steps, values), run, failed) && k < |run| && run[k].0.Fill?
    ensures k > 0 && run[k - 1] == (VerifyDomain, true)
  {
    ScriptGuarded(steps, values);
    assert Script(steps, values)[k].Fill?;
  }

  lemma {:induction false} FieldsComplete(fields: seq<FormField>, values: map<string, string>)
    ensures (forall f :: f in fields ==> f.entryFieldId in values) <==> Complete(FieldsScript(fields, values))
  {
    if fields == [] {
    } else {
      var init, last := fields[..|fields| - 1], fields[|fields| - 1];
      FieldsComplete(init, values);
      CompleteJoin(FieldsScript(init, values), FieldScript(last, values));
      assert fields == init + [last];
      FieldComplete(last, values);
    }
  }

  /** No attempt fails for lack of a value. */
  ghost predicate Complete(script: seq<Action>) {
    forall a :: a in script ==> !a.MissingValue?
  }

  lemma CompleteJoin(a: seq<Action>, b: seq<Action>)
    ensures Complete(a + b) <==> Complete(a) && Complete(b)
  {
    assert forall x :: x in a || x in b <==> x in a + b;
  }

  lemma FieldComplete(f: FormField, values: map<string, string>)
    ensures f.entryFieldId in values <==> Complete(FieldScript(f, values))
  {
    assert f.entryFieldId !in values ==> FieldScript(f, values)[0].MissingValue?;
  }

  ghost predicate FieldsGiven(s: FormStep, values: map<string, string>) {
    forall f :: f in s.fields ==> f.entryFieldId in values
  }

  lemma StepComplete(s: FormStep, values: map<string, string>)
    ensures FieldsGiven(s, values) <==> Complete(StepScript(s, values))
  {
    var fields, submit, v := FieldsScript(s.fields, values), SubmitScript(s), [VerifyDomain];
    FieldsComplete(s.fields, values);
    CompleteJoin(v, fields);
    CompleteJoin(v + fields, v);
    CompleteJoin(v + fields + v, submit);
    CompleteJoin(v + fields + v + submit, v);
  }

  lemma {:induction false} StepsComplete(steps: seq<FormStep>, values: map<string, string>)
    ensures Complete(Script(steps, values)) <==> forall s :: s in steps ==> FieldsGiven(s, values)
  {
    if steps == [] {
    } else {
      var init, last := steps[..|steps| - 1], steps[|steps| - 1];
      StepsComplete(init, values);
      CompleteJoin(Script(init, values), StepScript(last, values));
      StepComplete(last, values);
      assert steps == init + [last];
    }
  }

  /** The missing-value error can be met exactly when some required field has no value. */
  lemma MissingValueExactly(form: Form, values: map<string, string>)
    ensures Complete(Script(form.steps, values)) <==> Required(form) <= values.Keys
  {
    StepsComplete(form.steps, values);
  }

  /** Values that `parseInjectValues` accepts never meet it. */
  lemma AcceptedValuesNeverMissing(form: Form, items: seq<Item>, pairs: seq<(string, string)>, run: Log, failed: bool)
    requires Bijective(items, Required(form)) && |pairs| == |items|
    requires forall i {:trigger pairs[i]} {:trigger items[i]} :: 0 <= i < |pairs| ==>
               pairs[i] == (IdOf(items[i]), ValueOf(items[i]))
    requires IsRun(Script(form.steps, ToMap(pairs)), run, failed)
    ensures forall k :: 0 <= k < |run| ==> !run[k].0.MissingValue?
  {
    AcceptedValuesAreComplete(items, Required(form), pairs);
    MissingValueExactly(form, ToMap(pairs));
  }

  /** How many fills before the `k`-th attempt were completed: the place of that fill in `filled`. */
  lemma {:induction false} CompletedAt(run: Log, k: nat)
    requires k < |run| && run[k].0.Fill? && run[k].1
    ensures |Completed(run[..k])| < |Completed(run)|
    ensures Completed(run)[|Completed(run[..k])|] == run[k].0.field
    decreases |run|
  {
    var shorter := run[..|run| - 1];
    if k == |shorter| {
    } else {
      CompletedAt(shorter, k);
      assert shorter[..k] == run[..k];
    }
  }

  /** In a failed run every completed fill of a sensitive field has its clearing attempt, behind those of
      all sensitive fields filled after it. */
  lemma SensitiveFillsAreCleared(run: Log, k: nat)
    requires k < |run| && run[k].0.Fill? && run[k].1 && Sensitive(run[k].0.field)
    ensures |Completed(run[..k])| < |Completed(run)|
    ensures var after := SensitiveAfter(Completed(run), |Completed(run[..k])| + 1, Sensitive);
            && after < |Clearing(Completed(run), Sensitive)|
            && Clearing(Completed(run), Sensitive)[after] == Clear(run[k].0.field)
  {
    CompletedAt(run, k);
    EverySensitiveFillIsCleared(Completed(run), |Completed(run[..k])|, Sensitive);
  }

  /** What the run filled: the fields whose fill succeeded, and no others. */
  ghost predicate FillSucceeded(run: Log, f: FormField) {
    exists k :: 0 <= k < |run| && run[k].0.Fill? && run[k].1 && run[k].0.field == f
  }

  lemma {:induction false} CompletedExactly(run: Log, f: FormField)
    ensures f in Completed(run) <==> FillSucceeded(run, f)
    decreases |run|
  {
    if run == [] {
    } else {
      var shorter, last := run[..|run| - 1], run[|run| - 1];
      CompletedExactly(shorter, f);
      FillSucceededNext(shorter, last, f);
      assert run == shorter + [last];
    }
  }

  lemma FillSucceededNext(run: Log, last: (Action, bool), f: FormField)
    ensures FillSucceeded(run + [last], f) <==> FillSucceeded(run, f) || (last.0.Fill? && last.1 && last.0.field == f)
  {
    var longer := run + [last];
    if k :| 0 <= k < |run| && run[k].0.Fill? && run[k].1 && run[k].0.field == f { assert longer[k] == run[k]; }
    assert longer[|run|] == last;
  }

  lemma {:induction false} ClearingExactly(filled: seq<FormField>, f: FormField, sensitive: FormField -> bool)
    ensures Clear(f) in Clearing(filled, sensitive) <==> f in filled && sensitive(f)
    decreases |filled|
  {
    if filled == [] {
    } else {
      ClearingExactly(filled[..|filled| - 1], f, sensitive);
      assert filled == filled[..|filled| - 1] + [filled[|filled| - 1]];
    }
  }

  /** After a failure a field is cleared exactly when it is sensitive and one of its fills succeeded. */
  lemma ClearedExactly(run: Log, f: FormField)
    ensures Clear(f) in Clearing(Completed(run), Sensitive) <==> Sensitive(f) && FillSucceeded(run, f)
  {
    CompletedExactly(run, f);
    ClearingExactly(Completed(run), f, Sensitive);
  }

  /** A run that fails at its first fill. */
  function FailedFillRun(f: FormField, value: string): Log {
    [(VerifyDomain, true), (Locate(f.selector, f.control), true), (VerifyDomain, true), (Fill(f, value), false)]
  }

  /** Hence a fill that fails itself, although it may have typed something, is not undone: a form with
      one password, whose fill fails, leaves nothing to clear. */
  lemma FailedFillIsNotCleared(f: FormField, submit: Submit, values: map<string, string>)
    requires f.control.Password? && f.entryFieldId in values
    ensures var run := FailedFillRun(f, values[f.entryFieldId]);
            && IsRun(Script([FormStep([f], submit, None)], values), run, true)
            && Sensitive(f) && Clearing(Completed(run), Sensitive) == []
  {
    var script, run := Script([FormStep([f], submit, None)], values), FailedFillRun(f, values[f.entryFieldId]);
    OneFieldScript(f, submit, values);
    assert script[..4] == [VerifyDomain, run[1].0, VerifyDomain, run[3].0];
    assert forall i :: 0 <= i < 4 ==> script[i] == script[..4][i];
    NothingCompleted(run);
  }

  lemma OneFieldScript(f: FormField, submit: Submit, values: map<string, string>)
    ensures [VerifyDomain] + FieldScript(f, values) <= Script([FormStep([f], submit, None)], values)
  {
    var step := FormStep([f], submit, None);
    assert [f][..0] == [] && [step][..0] == [];
    assert FieldsScript([f], values) == FieldScript(f, values);
    assert Script([step], values) == StepScript(step, values);
  }

  lemma {:induction false} NothingCompleted(run: Log)
    requires forall k :: 0 <= k < |run| ==> !(run[k].0.Fill? && run[k].1)
    ensures Completed(run) == []
  {
    if run == [] {
    } else {
      NothingCompleted(run[..|run| - 1]);
    }
  }
}
