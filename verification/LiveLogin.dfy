/** The live-login flow of `live_login.rs`: a page-derived form may be submitted stage by stage, on
    one pinned origin, without replaying a stage.

    URL parsing, and the byte-level checks of stored selectors and field ids, are arguments.
 */
module LiveLogin {
  import opened Bytes

  const MAX_LIVE_STEPS := 8
  const MAX_FORM_STEPS := 8
  const MAX_FORM_FIELDS := 16

  /** An entry field id: `credential.username`, `credential.password`, `credential.totp` or another text. */
  datatype FieldId = USERNAME | PASSWORD | TOTP | OtherId(text: string)

  datatype Control = Username | Password | PlainText | Email | Tel | Otp
  datatype SubmitKind = Click | PressEnter | DeferredNativeClick | DeferredControlClick
  datatype FormField = FormField(entryFieldId: FieldId, selector: string, control: Control)
  datatype WaitFor = WaitFor(selector: string, timeoutMs: Option<nat>)
  datatype FormStep = FormStep(fields: seq<FormField>, action: SubmitKind, submitSelector: string,
                               waitFor: Option<WaitFor>)
  datatype Form = Form(version: nat, steps: seq<FormStep>)

  /** `exact_origin`, `valid_selector` and `valid_entry_field_id`. */
  datatype Checks = Checks(origin: string -> Option<string>, selector: string -> bool, fieldId: FieldId -> bool)

  // ----- Forms -----

  function Ids(fields: seq<FormField>): set<FieldId> {
    set f | f in fields :: f.entryFieldId
  }

  /** `field_ids` as a set. */
  function FormIds(form: Form): set<FieldId> {
    set s, f | s in form.steps && f in s.fields :: f.entryFieldId
  }

  predicate DistinctIds(fields: seq<FormField>) {
    forall i, j :: 0 <= i < j < |fields| ==> fields[i].entryFieldId != fields[j].entryFieldId
  }

  function FieldCount(steps: seq<FormStep>): nat {
    if steps == [] then 0 else FieldCount(steps[..|steps| - 1]) + |steps[|steps| - 1].fields|
  }

  predicate Deferred(k: SubmitKind) { k.DeferredNativeClick? || k.DeferredControlClick? }

  predicate StoredStep(c: Checks, s: FormStep, last: bool) {
    && s.fields != [] && (last || s.waitFor.Some?) && !Deferred(s.action) && c.selector(s.submitSelector)
    && (forall i :: 0 <= i < |s.fields| ==> c.fieldId(s.fields[i].entryFieldId) && c.selector(s.fields[i].selector))
    && DistinctIds(s.fields)
    && (s.action.PressEnter? ==> exists i :: 0 <= i < |s.fields| && s.fields[i].selector == s.submitSelector)
    && (s.waitFor.Some? ==> c.selector(s.waitFor.value.selector)
                            && (s.waitFor.value.timeoutMs.Some? ==> 100 <= s.waitFor.value.timeoutMs.value <= 60_000))
  }

  /** `InjectionFormDefinition::validate` */
  predicate StoredForm(c: Checks, form: Form) {
    && form.version == 1 && 0 < |form.steps| <= MAX_FORM_STEPS && FieldCount(form.steps) <= MAX_FORM_FIELDS
    && forall i :: 0 <= i < |form.steps| ==> StoredStep(c, form.steps[i], i + 1 == |form.steps|)
  }

  predicate IsDeferred(form: Form) {
    form.version == 2 && |form.steps| == 1 && Deferred(form.steps[0].action)
  }

  const LIVE_PREFIX := "palladin-live:"

  predicate IsHandle(s: string) {
    |s| == 32 && forall i :: 0 <= i < 32 ==> '0' <= s[i] <= '9' || 'a' <= s[i] <= 'f'
  }

  function ColonAt(s: string): (i: nat)
    ensures i <= |s|
  {
    if s == "" || s[0] == ':' then 0 else ColonAt(s[1..]) + 1
  }

  /** The snapshot that a live selector names. */
  function LiveSnapshot(selector: string): Option<string> {
    if !(LIVE_PREFIX <= selector) then None
    else
      var tail := selector[|LIVE_PREFIX|..];
      var i := ColonAt(tail);
      if i < |tail| && IsHandle(tail[..i]) && IsHandle(tail[i + 1..]) then Some(tail[..i]) else None
  }

  predicate DeferredShape(fields: seq<FormField>) {
    var u, p := (USERNAME, Control.Username), (PASSWORD, Control.Password);
    var shapes := seq(|fields|, i requires 0 <= i < |fields| => (fields[i].entryFieldId, fields[i].control));
    shapes == [u] || shapes == [p] || shapes == [u, p]
  }

  predicate LiveShape(f: FormField) {
    || (f.entryFieldId == USERNAME && f.control == Control.Username)
    || (f.entryFieldId == PASSWORD && f.control == Control.Password)
    || (f.entryFieldId == TOTP && f.control == Otp)
  }

  /** All selectors of the step name one snapshot. */
  predicate SameSnapshot(snapshotOf: string -> Option<string>, s: FormStep) {
    && snapshotOf(s.submitSelector).Some?
    && forall i :: 0 <= i < |s.fields| ==> snapshotOf(s.fields[i].selector) == snapshotOf(s.submitSelector)
  }

  predicate DistinctSelectors(s: FormStep) {
    && (forall i :: 0 <= i < |s.fields| ==> s.fields[i].selector != s.submitSelector)
    && forall i, j :: 0 <= i < j < |s.fields| ==> s.fields[i].selector != s.fields[j].selector
  }

  /** The forms that a live stage may have. */
  predicate LiveForm(c: Checks, form: Form) {
    if IsDeferred(form) then
      var s := form.steps[0];
      s.waitFor.None? && DeferredShape(s.fields) && SameSnapshot(LiveSnapshot, s) && DistinctSelectors(s)
    else
      && StoredForm(c, form) && |form.steps| == 1
      && var s := form.steps[0];
      s.waitFor.None? && s.action.Click? && |s.fields| <= 2 && LiveFields(LiveSnapshot, s)
  }

  /** The loop of the deferred branch: one snapshot, and no selector twice. */
  method CheckSelectors(snapshotOf: string -> Option<string>, s: FormStep, snapshot: Option<string>) returns (ok: bool)
    requires snapshot == snapshotOf(s.submitSelector) && snapshot.Some?
    ensures ok == (SameSnapshot(snapshotOf, s) && DistinctSelectors(s))
  {
    var selectors := {s.submitSelector};
    for i := 0 to |s.fields|
      invariant forall x :: x in selectors
                  <==> x == s.submitSelector || exists j :: 0 <= j < i && s.fields[j].selector == x
      invariant forall j :: 0 <= j < i ==> snapshotOf(s.fields[j].selector) == snapshot
      invariant forall j :: 0 <= j < i ==> s.fields[j].selector != s.submitSelector
      invariant forall j, k :: 0 <= j < k < i ==> s.fields[j].selector != s.fields[k].selector
    {
      if snapshotOf(s.fields[i].selector) != snapshot || s.fields[i].selector in selectors { return false; }
      selectors := selectors + {s.fields[i].selector};
    }
    return true;
  }

  predicate LiveFields(snapshotOf: string -> Option<string>, s: FormStep) {
    && CredentialFields(snapshotOf, s)
    && (TOTP in Ids(s.fields) ==> |s.fields| == 1)
  }

  predicate CredentialFields(snapshotOf: string -> Option<string>, s: FormStep) {
    && SameSnapshot(snapshotOf, s) && DistinctIds(s.fields)
    && (forall i :: 0 <= i < |s.fields| ==> LiveShape(s.fields[i]))
  }

  /** The loop of the stored branch: one snapshot, credential fields, no id twice. */
  method CollectIds(snapshotOf: string -> Option<string>, s: FormStep, snapshot: Option<string>)
    returns (r: Option<set<FieldId>>)
    requires snapshot == snapshotOf(s.submitSelector) && snapshot.Some?
    ensures r.Some? <==> CredentialFields(snapshotOf, s)
    ensures r.Some? ==> Collected(s.fields, |s.fields|, r.value)
  {
    var ids: set<FieldId> := {};
    for i := 0 to |s.fields|
      invariant FirstIds(s.fields, i) == Some(ids) && Checked(snapshotOf, s.fields, snapshot, i)
    {
      var f := s.fields[i];
      if f.entryFieldId in ids { FirstIdsRepeat(s.fields, i + 1); }
      if snapshotOf(f.selector) != snapshot || f.entryFieldId in ids || !LiveShape(f) { return None; }
      ids := ids + {f.entryFieldId};
    }
    FirstIdsCollect(s.fields, |s.fields|);
    return Some(ids);
  }

  /** The ids of the first `n` fields, unless one comes twice. */
  function FirstIds(fields: seq<FormField>, n: nat): Option<set<FieldId>>
    requires n <= |fields|
  {
    if n == 0 then Some({})
    else
      match FirstIds(fields, n - 1)
      case None => None
      case Some(ids) =>
        if fields[n - 1].entryFieldId in ids then None else Some(ids + {fields[n - 1].entryFieldId})
  }

  lemma {:induction false} FirstIdsCollect(fields: seq<FormField>, n: nat)
    requires n <= |fields| && FirstIds(fields, n).Some?
    ensures Collected(fields, n, FirstIds(fields, n).value)
  {
    if n == 0 {
    } else {
      FirstIdsCollect(fields, n - 1);
      CollectNext(fields, n - 1, FirstIds(fields, n - 1).value);
    }
  }

  lemma {:induction false} FirstIdsRepeat(fields: seq<FormField>, n: nat)
    requires n <= |fields| && FirstIds(fields, n).None?
    ensures !DistinctIds(fields)
  {
    if FirstIds(fields, n - 1).Some? {
      FirstIdsCollect(fields, n - 1);
      CollectNext(fields, n - 1, FirstIds(fields, n - 1).value);
    } else {
      FirstIdsRepeat(fields, n - 1);
    }
  }

  /** The first `n` fields are credential fields of this snapshot. */
  ghost predicate Checked(snapshotOf: string -> Option<string>, fields: seq<FormField>, snapshot: Option<string>,
                          n: nat)
    requires n <= |fields|
  {
    forall j :: 0 <= j < n ==> snapshotOf(fields[j].selector) == snapshot && LiveShape(fields[j])
  }

  /** The ids of the first `n` fields, which are distinct. */
  ghost predicate Collected(fields: seq<FormField>, n: nat, ids: set<FieldId>) {
    && n <= |fields| && |ids| == n
    && (forall i :: 0 <= i < n ==> fields[i].entryFieldId in ids)
    && (forall x :: x in ids ==> AmongFirst(fields, n, x))
    && (forall i, j :: 0 <= i < j < n ==> fields[i].entryFieldId != fields[j].entryFieldId)
  }

  ghost predicate AmongFirst(fields: seq<FormField>, n: nat, x: FieldId) {
    exists i :: 0 <= i < n && i < |fields| && fields[i].entryFieldId == x
  }

  lemma CollectNext(fields: seq<FormField>, n: nat, ids: set<FieldId>)
    requires Collected(fields, n, ids) && n < |fields|
    ensures fields[n].entryFieldId in ids ==> !DistinctIds(fields)
    ensures fields[n].entryFieldId !in ids ==> Collected(fields, n + 1, ids + {fields[n].entryFieldId})
  {
    var id := fields[n].entryFieldId;
    if id in ids {
      var i :| 0 <= i < n && fields[i].entryFieldId == id;
    } else {
      forall x | x in ids + {id} ensures AmongFirst(fields, n + 1, x) {
        if x != id { assert AmongFirst(fields, n, x); }
      }
    }
  }

  method CheckFields(snapshotOf: string -> Option<string>, s: FormStep, snapshot: Option<string>) returns (ok: bool)
    requires snapshot == snapshotOf(s.submitSelector) && snapshot.Some?
    ensures ok == LiveFields(snapshotOf, s)
  {
    var ids := CollectIds(snapshotOf, s, snapshot);
    if ids.None? { return false; }
    assert TOTP in ids.value <==> TOTP in Ids(s.fields);
    return !(TOTP in ids.value && |ids.value| != 1);
  }

  /** `validate_live_form` */
  method ValidateLiveForm(c: Checks, form: Form) returns (ok: bool)
    ensures ok == LiveForm(c, form)
  {
    if IsDeferred(form) {
      var s := form.steps[0];
      if s.waitFor.Some? || !DeferredShape(s.fields) { return false; }
      var snapshot := LiveSnapshot(s.submitSelector);
      if snapshot.None? { return false; }
      ok := CheckSelectors(LiveSnapshot, s, snapshot);
      return;
    }
    if !StoredForm(c, form) || |form.steps| != 1 { return false; }
    var s := form.steps[0];
    if s.waitFor.Some? || !s.action.Click? || |s.fields| > 2 { return false; }
    var snapshot := LiveSnapshot(s.submitSelector);
    if snapshot.None? { return false; }
    ok := CheckFields(LiveSnapshot, s, snapshot);
  }

  // ----- The flow -----

  datatype Continuation = Ready(currentUrl: string, documentId: string, liveForm: Form) | Terminal

  predicate DocumentIdOk(d: string) {
    && 0 < |d| <= 256
    && forall i :: 0 <= i < |d| ==>
         'a' <= d[i] <= 'z' || 'A' <= d[i] <= 'Z' || '0' <= d[i] <= '9' || d[i] == '-' || d[i] == '_'
  }

  datatype Flow = Flow(origin: string, currentUrl: string, form: Form, submitted: set<FieldId>, steps: nat)

  /** `repeats_submitted_stage`: the username may come again, but only with the first password. */
  predicate Repeats(submitted: set<FieldId>, ids: set<FieldId>) {
    var newPassword := PASSWORD !in submitted && PASSWORD in ids;
    exists id :: id in ids && id in submitted && !(id == USERNAME && newPassword)
  }

  function New(c: Checks, url: string, form: Form): Option<Flow> {
    if !LiveForm(c, form) then None
    else
      match c.origin(url)
      case None => None
      case Some(origin) => Some(Flow(origin, url, form, {}, 0))
  }

  function Submit(f: Flow): Option<Flow> {
    if f.steps >= MAX_LIVE_STEPS || Repeats(f.submitted, FormIds(f.form)) then None
    else Some(f.(submitted := f.submitted + FormIds(f.form), steps := f.steps + 1))
  }

  /** The next stage, if the continuation is one; `Success(false)` ends the flow without an error. */
  function Advance(c: Checks, f: Flow, k: Continuation): Result<(Flow, bool), ()> {
    match k
    case Terminal => Success((f, false))
    case Ready(url, documentId, form) =>
      if || f.steps == 0 || f.steps >= MAX_LIVE_STEPS || !DocumentIdOk(documentId)
         || c.origin(url) != Some(f.origin) || Repeats(f.submitted, FormIds(form)) || !LiveForm(c, form)
      then Failure(())
      else Success((f.(form := form, currentUrl := url), true))
  }

  /** The flow object; a call that fails leaves it as it was. */
  class LiveLoginFlow {
    const checks: Checks
    const origin: string
    var currentUrl: string
    var form: Form
    var submittedFields: set<FieldId>
    var steps: nat

    ghost function View(): Flow
      reads this
    {
      Flow(origin, currentUrl, form, submittedFields, steps)
    }

    constructor (checks: Checks, url: string, form: Form)
      requires New(checks, url, form).Some?
      ensures this.checks == checks && New(checks, url, form) == Some(View())
    {
      this.checks := checks;
      origin := checks.origin(url).value;
      currentUrl, this.form, submittedFields, steps := url, form, {}, 0;
    }

    method Submitted() returns (ok: bool)
      modifies this`submittedFields, this`steps
      ensures ok == Submit(old(View())).Some?
      ensures View() == if ok then Submit(old(View())).value else old(View())
    {
      if steps >= MAX_LIVE_STEPS || Repeats(submittedFields, FormIds(form)) { return false; }
      submittedFields := submittedFields + FormIds(form);
      steps := steps + 1;
      return true;
    }

    method AdvanceTo(k: Continuation) returns (r: Result<bool, ()>)
      modifies this`form, this`currentUrl
      ensures match Advance(checks, old(View()), k)
              case Failure(_) => r == Failure(()) && View() == old(View())
              case Success((next, more)) => r == Success(more) && View() == next
    {
      if k.Terminal? { return Success(false); }
      if || steps == 0 || steps >= MAX_LIVE_STEPS || !DocumentIdOk(k.documentId)
         || checks.origin(k.currentUrl) != Some(origin) || Repeats(submittedFields, FormIds(k.liveForm))
      {
        return Failure(());
      }
      var ok := ValidateLiveForm(checks, k.liveForm);
      if !ok { return Failure(()); }
      form := k.liveForm;
      currentUrl := k.currentUrl;
      return Success(true);
    }
  }

  /** `LiveLoginFlow::new` */
  method NewFlow(checks: Checks, url: string, form: Form) returns (r: Option<LiveLoginFlow>)
    ensures r.Some? <==> New(checks, url, form).Some?
    ensures r.Some? ==> fresh(r.value) && r.value.checks == checks && Some(r.value.View()) == New(checks, url, form)
  {
    var ok := ValidateLiveForm(checks, form);
    if !ok || checks.origin(url).None? { return None; }
    var flow := new LiveLoginFlow(checks, url, form);
    return Some(flow);
  }

  // ----- Every run -----

  datatype Event = SubmittedCall | AdvanceCall(k: Continuation)

  /** A flow together with the field ids of each stage submitted so far. */
  datatype Run = Run(flow: Flow, stages: seq<set<FieldId>>)

  function Step(c: Checks, r: Run, e: Event): Run {
    match e
    case SubmittedCall =>
      (match Submit(r.flow)
       case None => r
       case Some(next) => Run(next, r.stages + [FormIds(r.flow.form)]))
    case AdvanceCall(k) =>
      (match Advance(c, r.flow, k)
       case Failure(_) => r
       case Success((next, _)) => r.(flow := next))
  }

  function Play(c: Checks, start: Flow, events: seq<Event>): Run {
    if events == [] then Run(start, [])
    else Step(c, Play(c, start, events[..|events| - 1]), events[|events| - 1])
  }

  function Union(stages: seq<set<FieldId>>): set<FieldId> {
    if stages == [] then {} else Union(stages[..|stages| - 1]) + stages[|stages| - 1]
  }

  /** A stage may follow these stages. */
  ghost predicate Fresh(before: set<FieldId>, stage: set<FieldId>) {
    && stage != {} && stage <= {USERNAME, PASSWORD, TOTP}
    && !Repeats(before, stage)
  }

  ghost predicate Inv(c: Checks, r: Run) {
    && c.origin(r.flow.currentUrl) == Some(r.flow.origin)
    && LiveForm(c, r.flow.form)
    && r.flow.submitted == Union(r.stages) && r.flow.steps == |r.stages|
    && forall i :: 0 <= i < |r.stages| ==> Fresh(Union(r.stages[..i]), r.stages[i])
  }

  /** A live form has a field, and only the three credential fields. */
  lemma LiveFormIds(c: Checks, form: Form)
    requires LiveForm(c, form)
    ensures FormIds(form) != {} && FormIds(form) <= {USERNAME, PASSWORD, TOTP}
  {
    var s := form.steps[0];
    assert forall x :: x in form.steps ==> x == s;
    if IsDeferred(form) {
      DeferredFields(s.fields);
    } else {
      assert StoredStep(c, s, true);
    }
    assert s.fields[0].entryFieldId in FormIds(form);
  }

  lemma DeferredFields(fields: seq<FormField>)
    requires DeferredShape(fields)
    ensures fields != [] && forall i :: 0 <= i < |fields| ==> fields[i].entryFieldId in {USERNAME, PASSWORD}
  {
    var shapes := seq(|fields|, i requires 0 <= i < |fields| => (fields[i].entryFieldId, fields[i].control));
    assert forall i :: 0 <= i < |fields| ==> shapes[i].0 == fields[i].entryFieldId;
  }

  lemma StepKeepsInv(c: Checks, r: Run, e: Event)
    requires Inv(c, r)
    ensures Inv(c, Step(c, r, e))
  {
    var q := Step(c, r, e);
    if e.SubmittedCall? && q != r {
      LiveFormIds(c, r.flow.form);
      var n := |r.stages|;
      assert q.stages[..n] == r.stages;
      forall i | 0 <= i < |q.stages| ensures Fresh(Union(q.stages[..i]), q.stages[i]) {
        if i < n { assert q.stages[..i] == r.stages[..i]; }
      }
    }
  }

  lemma {:induction false} PlayKeepsInv(c: Checks, url: string, form: Form, events: seq<Event>)
    requires New(c, url, form).Some?
    ensures Inv(c, Play(c, New(c, url, form).value, events))
    ensures Play(c, New(c, url, form).value, events).flow.origin == New(c, url, form).value.origin
    decreases |events|
  {
    if events == [] {
    } else {
      PlayKeepsInv(c, url, form, events[..|events| - 1]);
      StepKeepsInv(c, Play(c, New(c, url, form).value, events[..|events| - 1]), events[|events| - 1]);
    }
  }

  /** In every reachable state the page is on the pinned origin and the form is a valid live form. */
  lemma OriginIsPinned(c: Checks, url: string, form: Form, events: seq<Event>)
    requires New(c, url, form).Some?
    ensures var r := Play(c, New(c, url, form).value, events);
            c.origin(r.flow.currentUrl) == c.origin(url) && LiveForm(c, r.flow.form)
  {
    PlayKeepsInv(c, url, form, events);
  }

  lemma {:induction false} UnionHas(stages: seq<set<FieldId>>, i: nat)
    requires i < |stages|
    ensures stages[i] <= Union(stages)
    decreases |stages|
  {
    if i == |stages| - 1 {
    } else {
      UnionHas(stages[..|stages| - 1], i);
    }
  }

  lemma EarlierSubmitted(stages: seq<set<FieldId>>, i: nat, j: nat, id: FieldId)
    requires i < j < |stages| && id in stages[i]
    ensures id in Union(stages[..j])
  {
    UnionHas(stages[..j], i);
  }

  /** In every run the password and the one-time code are each submitted at most once, and the
      username a second time only together with the first password. */
  lemma NoStageIsReplayed(c: Checks, url: string, form: Form, events: seq<Event>, i: nat, j: nat)
    requires New(c, url, form).Some?
    requires i < j < |Play(c, New(c, url, form).value, events).stages|
    ensures var stages := Play(c, New(c, url, form).value, events).stages;
            && !(PASSWORD in stages[i] && PASSWORD in stages[j])
            && !(TOTP in stages[i] && TOTP in stages[j])
            && (USERNAME in stages[i] && USERNAME in stages[j] ==>
                  PASSWORD in stages[j] && forall k :: 0 <= k < j ==> PASSWORD !in stages[k])
  {
    PlayKeepsInv(c, url, form, events);
    var stages := Play(c, New(c, url, form).value, events).stages;
    assert Fresh(Union(stages[..j]), stages[j]);
    if PASSWORD in stages[i] { EarlierSubmitted(stages, i, j, PASSWORD); }
    if TOTP in stages[i] { EarlierSubmitted(stages, i, j, TOTP); }
    if USERNAME in stages[i] { EarlierSubmitted(stages, i, j, USERNAME); }
    forall k | 0 <= k < j && PASSWORD in stages[k] ensures PASSWORD in Union(stages[..j]) {
      EarlierSubmitted(stages, k, j, PASSWORD);
    }
  }

  /** Hence the username is in at most two stages. */
  lemma UsernameAtMostTwice(c: Checks, url: string, form: Form, events: seq<Event>, i: nat, j: nat, k: nat)
    requires New(c, url, form).Some?
    requires i < j < k < |Play(c, New(c, url, form).value, events).stages|
    ensures var stages := Play(c, New(c, url, form).value, events).stages;
            !(USERNAME in stages[i] && USERNAME in stages[j] && USERNAME in stages[k])
  {
    NoStageIsReplayed(c, url, form, events, i, j);
    NoStageIsReplayed(c, url, form, events, j, k);
  }

  /** A stage that may follow brings a field id that was not submitted before. */
  lemma FreshBringsNew(before: set<FieldId>, stage: set<FieldId>) returns (id: FieldId)
    requires Fresh(before, stage)
    ensures id in stage && id !in before
  {
    if PASSWORD in stage && PASSWORD !in before {
      id := PASSWORD;
    } else {
      id :| id in stage;
    }
  }

  lemma {:induction false} UnionGrows(stages: seq<set<FieldId>>)
    requires forall i :: 0 <= i < |stages| ==> Fresh(Union(stages[..i]), stages[i])
    ensures |stages| <= |Union(stages)| && Union(stages) <= {USERNAME, PASSWORD, TOTP}
    decreases |stages|
  {
    if stages == [] {
    } else {
      var n := |stages| - 1;
      var front := stages[..n];
      assert forall i :: 0 <= i < n ==> front[..i] == stages[..i];
      UnionGrows(front);
      var id := FreshBringsNew(Union(front), stages[n]);
      assert Union(stages) >= Union(front) + {id};
      Bigger(Union(front) + {id}, Union(stages));
    }
  }

  lemma {:induction false} Bigger(a: set<FieldId>, b: set<FieldId>)
    requires a <= b
    ensures |a| <= |b|
    decreases |a|
  {
    if a == {} {
    } else {
      var x :| x in a;
      Bigger(a - {x}, b - {x});
    }
  }

  /** The stage holds a field id that is in no earlier stage. */
  ghost predicate BringsNew(stages: seq<set<FieldId>>, i: nat)
    requires i < |stages|
  {
    exists id :: id in stages[i] && forall k :: 0 <= k < i ==> id !in stages[k]
  }

  lemma FreshStageBringsNew(stages: seq<set<FieldId>>, i: nat)
    requires i < |stages| && Fresh(Union(stages[..i]), stages[i])
    ensures BringsNew(stages, i)
  {
    var id := FreshBringsNew(Union(stages[..i]), stages[i]);
    forall k | 0 <= k < i ensures id !in stages[k] {
      if id in stages[k] { EarlierSubmitted(stages, k, i, id); }
    }
  }

  /** In every run at most three stages are submitted, each with a field id that is in no earlier one, so
      the step limit of eight is never what stops a run. */
  lemma AtMostThreeStages(c: Checks, url: string, form: Form, events: seq<Event>)
    requires New(c, url, form).Some?
    ensures var r := Play(c, New(c, url, form).value, events);
            && r.flow.steps == |r.stages| <= 3 < MAX_LIVE_STEPS
            && forall i :: 0 <= i < |r.stages| ==> BringsNew(r.stages, i)
  {
    PlayKeepsInv(c, url, form, events);
    var r := Play(c, New(c, url, form).value, events);
    forall i | 0 <= i < |r.stages| ensures BringsNew(r.stages, i) {
      FreshStageBringsNew(r.stages, i);
    }
    UnionGrows(r.stages);
    Bigger(Union(r.stages), {USERNAME, PASSWORD, TOTP});
  }

  /** Calls that are not a successful advance. */
  predicate NoAdvance(c: Checks, f: Flow, events: seq<Event>) {
    forall i :: 0 <= i < |events| ==>
      events[i].AdvanceCall? ==>
        match Advance(c, f, events[i].k) case Failure(_) => true case Success((_, more)) => !more
  }

  /** After a submission nothing but a successful advance allows another: until then every
      `submitted` fails and the flow does not change. */
  lemma {:induction false} SubmittedOnlyOnce(c: Checks, f: Flow, events: seq<Event>)
    requires LiveForm(c, f.form) && Submit(f).Some? && NoAdvance(c, Submit(f).value, events)
    ensures Play(c, Submit(f).value, events) == Run(Submit(f).value, [])
    ensures Submit(Submit(f).value).None?
    decreases |events|
  {
    var g := Submit(f).value;
    LiveFormIds(c, f.form);
    var ids := FormIds(g.form);
    var id :| id in ids;
    assert PASSWORD in ids ==> PASSWORD in g.submitted;
    assert id in g.submitted;
    if events == [] {
    } else {
      SubmittedOnlyOnce(c, f, events[..|events| - 1]);
    }
  }

  // ----- What may follow -----

  /** These ids may follow those: nothing is repeated, or nothing but the username, carried forward to the
      first password. */
  ghost predicate MayFollow(submitted: set<FieldId>, ids: set<FieldId>) {
    ids !! submitted || (ids * submitted == {USERNAME} && PASSWORD in ids)
  }

  lemma RepeatsExactly(submitted: set<FieldId>, ids: set<FieldId>)
    ensures Repeats(submitted, ids) <==> !MayFollow(submitted, ids)
  {
    var both := ids * submitted;
    if !Repeats(submitted, ids) && both != {} {
      var x :| x in both;
      assert x == USERNAME && PASSWORD in ids && PASSWORD !in submitted;
      assert both == {USERNAME};
    }
    if both == {USERNAME} && PASSWORD in ids {
      assert PASSWORD !in both;
    }
    if Repeats(submitted, ids) {
      var id :| id in ids && id in submitted && !(id == USERNAME && PASSWORD !in submitted && PASSWORD in ids);
      assert id in both;
    }
  }

  /** A stage is submitted exactly when its ids may follow and the step limit is not reached. */
  lemma SubmitExactly(f: Flow)
    ensures Submit(f).Some? <==> f.steps < 8 && MayFollow(f.submitted, FormIds(f.form))
    ensures Submit(f).Some? ==> Submit(f).value.submitted == f.submitted + FormIds(f.form)
                                && Submit(f).value == f.(submitted := Submit(f).value.submitted, steps := f.steps + 1)
  {
    RepeatsExactly(f.submitted, FormIds(f.form));
  }

  /** A flow moves on exactly to a valid live form on its origin whose ids may follow those submitted, once
      a stage was submitted and before the step limit; otherwise the call fails. */
  lemma AdvanceExactly(c: Checks, f: Flow, url: string, documentId: string, form: Form)
    ensures var r := Advance(c, f, Ready(url, documentId, form));
            var moves := && 0 < f.steps < 8 && DocumentIdOk(documentId) && c.origin(url) == Some(f.origin)
                         && LiveForm(c, form) && MayFollow(f.submitted, FormIds(form));
            r == if moves then Success((f.(form := form, currentUrl := url), true)) else Failure(())
    ensures Advance(c, f, Terminal) == Success((f, false))
  {
    RepeatsExactly(f.submitted, FormIds(form));
  }

  /** The calls of a login in three stages. */
  function ThreeStages(url: string, documentId: string, second: Form, third: Form): seq<Event> {
    [SubmittedCall, AdvanceCall(Ready(url, documentId, second)), SubmittedCall,
     AdvanceCall(Ready(url, documentId, third)), SubmittedCall]
  }

  lemma PlayNext(c: Checks, start: Flow, events: seq<Event>, e: Event)
    ensures Play(c, start, events + [e]) == Step(c, Play(c, start, events), e)
  {
    assert (events + [e])[..|events|] == events;
  }

  /** Username, then the password with or without the carried username, then the one-time code: all three
      stages are submitted, for all live forms with these ids on the pinned origin. */
  lemma ThreeStagesHappen(c: Checks, url: string, documentId: string, first: Form, second: Form, third: Form)
    requires LiveForm(c, first) && LiveForm(c, second) && LiveForm(c, third) && c.origin(url).Some?
    requires DocumentIdOk(documentId) && FormIds(first) == {USERNAME} && FormIds(third) == {TOTP}
    requires FormIds(second) == {PASSWORD} || FormIds(second) == {USERNAME, PASSWORD}
    ensures New(c, url, first).Some?
    ensures Play(c, New(c, url, first).value, ThreeStages(url, documentId, second, third)).stages
         == [FormIds(first), FormIds(second), FormIds(third)]
  {
    assert FormIds(second) * {USERNAME} == {} || FormIds(second) * {USERNAME} == {USERNAME};
    assert {TOTP} * (FormIds(first) + FormIds(second)) == {};
    ThreeStagesFollow(c, url, documentId, first, second, third);
  }

  lemma ThreeStagesFollow(c: Checks, url: string, documentId: string, first: Form, second: Form, third: Form)
    requires LiveForm(c, first) && LiveForm(c, second) && LiveForm(c, third) && c.origin(url).Some?
    requires DocumentIdOk(documentId) && MayFollow(FormIds(first), FormIds(second))
    requires MayFollow(FormIds(first) + FormIds(second), FormIds(third))
    ensures New(c, url, first).Some?
    ensures Play(c, New(c, url, first).value, ThreeStages(url, documentId, second, third)).stages
         == [FormIds(first), FormIds(second), FormIds(third)]
  {
    var a2, a3 := AdvanceCall(Ready(url, documentId, second)), AdvanceCall(Ready(url, documentId, third));
    InOrder(SubmittedCall, a2, SubmittedCall, a3, SubmittedCall);
    InOrder(FormIds(first), FormIds(second), FormIds(third), {}, {});
    var r := TwoStagesHappen(c, url, documentId, first, second);
    var calls := [SubmittedCall] + [a2] + [SubmittedCall];
    var _ := StageFollows(c, New(c, url, first).value, calls, r, url, documentId, third);
  }

  lemma TwoStagesHappen(c: Checks, url: string, documentId: string, first: Form, second: Form) returns (r: Run)
    requires LiveForm(c, first) && LiveForm(c, second) && c.origin(url).Some? && DocumentIdOk(documentId)
    requires MayFollow(FormIds(first), FormIds(second))
    ensures New(c, url, first).Some?
    ensures r == Play(c, New(c, url, first).value,
                      [SubmittedCall] + [AdvanceCall(Ready(url, documentId, second))] + [SubmittedCall])
    ensures r.stages == [FormIds(first)] + [FormIds(second)] && c.origin(url) == Some(r.flow.origin)
    ensures r.flow.steps == 2 && r.flow.submitted == FormIds(first) + FormIds(second)
  {
    var f := New(c, url, first).value;
    InOrder(SubmittedCall, SubmittedCall, SubmittedCall, SubmittedCall, SubmittedCall);
    InOrder(FormIds(first), {}, {}, {}, {});
    r := SubmitHappens(c, f, [], Run(f, []));
    r := StageFollows(c, f, [SubmittedCall], r, url, documentId, second);
  }

  lemma InOrder<T>(a: T, b: T, c: T, d: T, e: T)
    ensures [] + [a] == [a] && [a] + [b] + [c] == [a, b, c] && [a] + [b] + [c] + [d] + [e] == [a, b, c, d, e]
  {
  }

  /** Moving on to a form and submitting it. */
  lemma StageFollows(c: Checks, start: Flow, events: seq<Event>, r: Run, url: string, documentId: string, form: Form)
    returns (q: Run)
    requires Play(c, start, events) == r && 0 < r.flow.steps < 8
    requires DocumentIdOk(documentId) && c.origin(url) == Some(r.flow.origin)
    requires LiveForm(c, form) && MayFollow(r.flow.submitted, FormIds(form))
    ensures q == Play(c, start, events + [AdvanceCall(Ready(url, documentId, form))] + [SubmittedCall])
    ensures q.stages == r.stages + [FormIds(form)] && q.flow.origin == r.flow.origin
    ensures q.flow.submitted == r.flow.submitted + FormIds(form) && q.flow.steps == r.flow.steps + 1
  {
    var m := AdvanceHappens(c, start, events, r, url, documentId, form);
    q := SubmitHappens(c, start, events + [AdvanceCall(Ready(url, documentId, form))], m);
  }

  lemma SubmitHappens(c: Checks, start: Flow, events: seq<Event>, r: Run) returns (q: Run)
    requires Play(c, start, events) == r && r.flow.steps < 8 && MayFollow(r.flow.submitted, FormIds(r.flow.form))
    ensures q == Play(c, start, events + [SubmittedCall]) && q.stages == r.stages + [FormIds(r.flow.form)]
    ensures q.flow == r.flow.(submitted := r.flow.submitted + FormIds(r.flow.form), steps := r.flow.steps + 1)
  {
    SubmitExactly(r.flow);
    PlayNext(c, start, events, SubmittedCall);
    q := Step(c, r, SubmittedCall);
  }

  lemma AdvanceHappens(c: Checks, start: Flow, events: seq<Event>, r: Run, url: string, documentId: string, form: Form)
    returns (q: Run)
    requires Play(c, start, events) == r && 0 < r.flow.steps < 8
    requires DocumentIdOk(documentId) && c.origin(url) == Some(r.flow.origin)
    requires LiveForm(c, form) && MayFollow(r.flow.submitted, FormIds(form))
    ensures q == Play(c, start, events + [AdvanceCall(Ready(url, documentId, form))])
    ensures q == r.(flow := r.flow.(form := form, currentUrl := url))
  {
    AdvanceExactly(c, r.flow, url, documentId, form);
    PlayNext(c, start, events, AdvanceCall(Ready(url, documentId, form)));
    q := Step(c, r, AdvanceCall(Ready(url, documentId, form)));
  }

  // ----- Exactly which selectors and fields are live -----

  lemma {:induction false} ColonBehind(s: string, rest: string)
    requires forall i :: 0 <= i < |s| ==> s[i] != ':'
    ensures ColonAt(s + ([':'] + rest)) == |s|
    decreases |s|
  {
    if s == "" {
      assert s + ([':'] + rest) == [':'] + rest;
    } else {
      assert (s + ([':'] + rest))[1..] == s[1..] + ([':'] + rest);
      ColonBehind(s[1..], rest);
    }
  }

  lemma {:induction false} ColonIsFirst(s: string)
    ensures ColonAt(s) < |s| ==> s[ColonAt(s)] == ':'
    decreases |s|
  {
    if s == "" || s[0] == ':' {
    } else {
      ColonIsFirst(s[1..]);
    }
  }

  function LiveSelector(snapshot: string, handle: string): string { LIVE_PREFIX + (snapshot + ([':'] + handle)) }

  /** A selector is live exactly when it is the prefix, a snapshot handle, a colon and an element handle. */
  lemma LiveSnapshotExactly(selector: string, snapshot: string)
    ensures LiveSnapshot(selector) == Some(snapshot)
       <==> IsHandle(snapshot) && exists handle :: IsHandle(handle) && selector == LiveSelector(snapshot, handle)
  {
    if LiveSnapshot(selector) == Some(snapshot) {
      var tail := selector[|LIVE_PREFIX|..];
      var i := ColonAt(tail);
      ColonIsFirst(tail);
      var handle := tail[i + 1..];
      assert tail == snapshot + ([':'] + handle);
      assert selector == LiveSelector(snapshot, handle);
    }
    if IsHandle(snapshot) && exists handle :: IsHandle(handle) && selector == LiveSelector(snapshot, handle) {
      var handle :| IsHandle(handle) && selector == LiveSelector(snapshot, handle);
      var tail := snapshot + ([':'] + handle);
      assert selector[|LIVE_PREFIX|..] == tail;
      ColonBehind(snapshot, handle);
      assert tail[..32] == snapshot && tail[33..] == handle;
    }
  }

  function Shapes(fields: seq<FormField>): (shapes: seq<(FieldId, Control)>)
    ensures |shapes| == |fields|
    ensures forall i :: 0 <= i < |fields| ==> shapes[i] == (fields[i].entryFieldId, fields[i].control)
  {
    seq(|fields|, i requires 0 <= i < |fields| => (fields[i].entryFieldId, fields[i].control))
  }

  const U := (USERNAME, Control.Username)
  const P := (PASSWORD, Control.Password)
  const T := (TOTP, Control.Otp)

  /** A stored form is live exactly when its one step clicks, does not wait, lies in one snapshot and asks for
      a username, a password, both in either order, or a one-time code alone, each in its own control. */
  lemma StoredLiveExactly(c: Checks, form: Form)
    requires !IsDeferred(form)
    ensures LiveForm(c, form) <==>
              && StoredForm(c, form) && |form.steps| == 1 && form.steps[0].waitFor.None? && form.steps[0].action.Click?
              && SameSnapshot(LiveSnapshot, form.steps[0])
              && Shapes(form.steps[0].fields) in [[U], [P], [T], [U, P], [P, U]]
  {
    if StoredForm(c, form) && |form.steps| == 1 {
      assert StoredStep(c, form.steps[0], true);
      LiveFieldsExactly(form.steps[0].fields);
      assert |form.steps[0].fields| > 2 ==> Shapes(form.steps[0].fields) !in [[U], [P], [T], [U, P], [P, U]];
    }
  }

  lemma LiveFieldsExactly(fields: seq<FormField>)
    requires fields != [] && DistinctIds(fields)
    ensures (|fields| <= 2 && (forall i :: 0 <= i < |fields| ==> LiveShape(fields[i]))
             && (TOTP in Ids(fields) ==> |fields| == 1))
       <==> Shapes(fields) in [[U], [P], [T], [U, P], [P, U]]
  {
    var shapes := Shapes(fields);
    assert forall i :: 0 <= i < |fields| ==>
             (LiveShape(fields[i]) <==> shapes[i] == U || shapes[i] == P || shapes[i] == T);
    assert TOTP in Ids(fields) <==> exists i :: 0 <= i < |fields| && shapes[i].0 == TOTP;
    if |fields| == 1 {
      assert shapes == [shapes[0]];
    } else if |fields| == 2 {
      assert shapes == [shapes[0], shapes[1]];
      assert shapes[0].0 != shapes[1].0;
    }
  }
}
