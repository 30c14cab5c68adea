/**
 * `change_passwords`: apply one password change to every configured directory
 * backend in declared order and, when one fails with the service's `Error`,
 * revert the backends already changed, newest first, before re-raising that
 * error.
 *
 * Each backend call is answered by an injected oracle: given the calls made so
 * far in the run and the call being made, it says how that `change_password`
 * call ends. `ThroughDirectory` builds such an oracle from the directory's
 * replies and the modelled `change_password`.
 */
module Saga {

  import opened Directory
  import opened Adapter
  import Backend

  /** A configuration section with its name and options, as `CONF[key]`. */
  datatype Section = Section(name: string, options: Options)

  /** One call `change_password(CONF[key], username, old, new)`. */
  datatype Call = Call(section: Section, username: string, oldPass: string, newPass: string)

  /** How a `change_password` call ends, given the earlier calls of the run. */
  type Backends = (seq<Call>, Call) -> Outcome

  /** The directory's replies to a call, given the earlier calls of the run. */
  type DirectoryOracle = (seq<Call>, Call) -> Replies

  /** The oracle whose outcomes are those of the modelled `change_password` against `directory`. */
  function ThroughDirectory(directory: DirectoryOracle): Backends {
    (history: seq<Call>, c: Call) =>
      Backend.ChangePassword(c.section.options, c.username, c.oldPass, c.newPass, directory(history, c)).outcome
  }

  /** An outcome that `except Error` does not catch. */
  predicate Escapes(o: Outcome) {
    o.Raise? && !o.error.Error?
  }

  /** `key == 'ldap' or key.startswith('ldap:')` */
  predicate IsBackend(name: string) {
    name == "ldap" || "ldap:" <= name
  }

  /** The backend sections of the configuration, in declared order. */
  function Selected(config: seq<Section>): (r: seq<Section>)
    ensures |r| <= |config|
  {
    if config == [] then []
    else (if IsBackend(config[0].name) then [config[0]] else []) + Selected(config[1..])
  }

  /** Exactly the backend sections are selected. */
  lemma {:induction false} SelectedMembers(config: seq<Section>)
    ensures forall s :: s in Selected(config) <==> s in config && IsBackend(s.name)
  {
    if config != [] {
      SelectedMembers(config[1..]);
      assert config == [config[0]] + config[1..];
    }
  }

  /** Selection keeps the declared order: it commutes with concatenation. */
  lemma {:induction false} SelectedAppend(a: seq<Section>, b: seq<Section>)
    ensures Selected(a + b) == Selected(a) + Selected(b)
  {
    if a == [] {
      assert a + b == b;
    } else {
      var head := if IsBackend(a[0].name) then [a[0]] else [];
      assert (a + b)[0] == a[0];
      assert (a + b)[1..] == a[1..] + b;
      SelectedAppend(a[1..], b);
      calc {
        Selected(a + b);
        head + Selected(a[1..] + b);
        head + (Selected(a[1..]) + Selected(b));
        (head + Selected(a[1..])) + Selected(b);
        Selected(a) + Selected(b);
      }
    }
  }

  /** Distinct section names stay distinct after selection. */
  lemma {:induction false} SelectedDistinct(config: seq<Section>)
    requires forall i, j :: 0 <= i < j < |config| ==> config[i].name != config[j].name
    ensures forall i, j :: 0 <= i < j < |Selected(config)| ==> Selected(config)[i].name != Selected(config)[j].name
  {
    if config != [] {
      SelectedDistinct(config[1..]);
      SelectedMembers(config[1..]);
      var rest := Selected(config[1..]);
      assert forall s :: s in rest ==> s in config[1..];
      assert forall s :: s in config[1..] ==> s.name != config[0].name;
    }
  }

  /** The apply calls: each section with `(old, new)`, in order. */
  function Applies(sections: seq<Section>, username: string, oldPass: string, newPass: string): (r: seq<Call>)
    ensures |r| == |sections|
    ensures forall i :: 0 <= i < |r| ==> r[i] == Call(sections[i], username, oldPass, newPass)
  {
    seq(|sections|, i requires 0 <= i < |sections| => Call(sections[i], username, oldPass, newPass))
  }

  /** The apply calls up to and including section `i`. */
  lemma AppliesSnoc(sections: seq<Section>, username: string, oldPass: string, newPass: string, i: nat)
    requires i < |sections|
    ensures Applies(sections[..i], username, oldPass, newPass) + [Call(sections[i], username, oldPass, newPass)]
         == Applies(sections[..i + 1], username, oldPass, newPass)
  {
  }

  /** The revert calls: the changed sections newest first, each with `(new, old)`. */
  function Reverts(changed: seq<Section>, username: string, oldPass: string, newPass: string): (r: seq<Call>)
    ensures |r| == |changed|
    ensures forall i :: 0 <= i < |r| ==> r[i] == Call(changed[|changed| - 1 - i], username, newPass, oldPass)
  {
    seq(|changed|, i requires 0 <= i < |changed| => Call(changed[|changed| - 1 - i], username, newPass, oldPass))
  }

  /** The outcome of the `j`-th call of a run, given the calls before it. */
  function OutcomeAt(backend: Backends, calls: seq<Call>, j: nat): Outcome
    requires j < |calls|
  {
    backend(calls[..j], calls[j])
  }

  /** The outcome of applying the change to `sections[i]`, after the applies before it. */
  function ApplyOutcome(backend: Backends, sections: seq<Section>, username: string, oldPass: string, newPass: string, i: nat): Outcome
    requires i < |sections|
  {
    backend(Applies(sections[..i], username, oldPass, newPass), Call(sections[i], username, oldPass, newPass))
  }

  /** The index of the first section, from `i` on, whose apply call does not return. */
  function FirstFailure(backend: Backends, sections: seq<Section>, username: string, oldPass: string, newPass: string, i: nat): (k: nat)
    requires i <= |sections|
    ensures i <= k <= |sections|
    ensures forall j :: i <= j < k ==> ApplyOutcome(backend, sections, username, oldPass, newPass, j).Ok?
    ensures k < |sections| ==> ApplyOutcome(backend, sections, username, oldPass, newPass, k).Raise?
    decreases |sections| - i
  {
    if i == |sections| then i
    else if ApplyOutcome(backend, sections, username, oldPass, newPass, i).Raise? then i
    else FirstFailure(backend, sections, username, oldPass, newPass, i + 1)
  }

  /** The first failure is at `k` when the applies before `k` return and the one at `k` (if any) raises. */
  lemma {:induction false} FirstFailureAt(backend: Backends, sections: seq<Section>, username: string, oldPass: string, newPass: string, i: nat, k: nat)
    requires i <= k <= |sections|
    requires forall j :: i <= j < k ==> ApplyOutcome(backend, sections, username, oldPass, newPass, j).Ok?
    requires k < |sections| ==> ApplyOutcome(backend, sections, username, oldPass, newPass, k).Raise?
    ensures FirstFailure(backend, sections, username, oldPass, newPass, i) == k
    decreases k - i
  {
    if i < k {
      assert ApplyOutcome(backend, sections, username, oldPass, newPass, i).Ok?;
      FirstFailureAt(backend, sections, username, oldPass, newPass, i + 1, k);
    }
  }

  /** The calls of a run so far, and the exception that escaped the compensation, if one did. */
  datatype Compensation = Compensation(calls: seq<Call>, escaped: Maybe.Option<Exc>)

  /**
   * The compensation loop: revert `changed` newest first after `history`. A
   * revert that raises `Error` is passed over; any other exception ends the
   * loop and escapes.
   */
  function Compensate(backend: Backends, changed: seq<Section>, username: string, oldPass: string, newPass: string, history: seq<Call>): Compensation
    decreases |changed|
  {
    if changed == [] then Compensation(history, Maybe.None)
    else
      var c := Call(changed[|changed| - 1], username, newPass, oldPass);
      var o := backend(history, c);
      if Escapes(o) then Compensation(history + [c], Maybe.Some(o.error))
      else Compensate(backend, changed[..|changed| - 1], username, oldPass, newPass, history + [c])
  }

  /** One round of the compensation loop. */
  lemma CompensateStep(backend: Backends, changed: seq<Section>, username: string, oldPass: string, newPass: string, history: seq<Call>)
    requires changed != []
    ensures var c := Call(changed[|changed| - 1], username, newPass, oldPass);
      Compensate(backend, changed, username, oldPass, newPass, history)
      == if Escapes(backend(history, c)) then Compensation(history + [c], Maybe.Some(backend(history, c).error))
         else Compensate(backend, changed[..|changed| - 1], username, oldPass, newPass, history + [c])
  {
  }

  /**
   * Every revert that compensation passed over returned or raised `Error`; an
   * exception that escaped is not an `Error` and is the outcome of the last
   * revert issued.
   */
  lemma {:induction false} CompensateOutcomes(backend: Backends, changed: seq<Section>, username: string, oldPass: string, newPass: string, history: seq<Call>)
    ensures var r := Compensate(backend, changed, username, oldPass, newPass, history);
      && |r.calls| >= |history|
      && r.calls[..|history|] == history
      && (r.escaped.Some? ==>
            |r.calls| > |history| && !r.escaped.value.Error?
            && OutcomeAt(backend, r.calls, |r.calls| - 1) == Raise(r.escaped.value))
      && (forall j :: |history| <= j < |r.calls| && (r.escaped.None? || j < |r.calls| - 1) ==>
            !Escapes(OutcomeAt(backend, r.calls, j)))
    decreases |changed|
  {
    if changed != [] {
      var c := Call(changed[|changed| - 1], username, newPass, oldPass);
      if !Escapes(backend(history, c)) {
        var h := history + [c];
        CompensateOutcomes(backend, changed[..|changed| - 1], username, oldPass, newPass, h);
        var r := Compensate(backend, changed[..|changed| - 1], username, oldPass, newPass, h);
        assert r.calls[..|history|] == r.calls[..|h|][..|history|];
        assert r.calls[..|history|] == history;
        assert r.calls[|history|] == c;
      }
    }
  }

  /** A run: how `change_passwords` ends and the backend calls it made, in order. */
  datatype Run = Run(result: Outcome, calls: seq<Call>)

  /** The run that `change_passwords` performs, stated phase by phase. */
  function Saga(backend: Backends, config: seq<Section>, username: string, oldPass: string, newPass: string): Run {
    var sel := Selected(config);
    var k := FirstFailure(backend, sel, username, oldPass, newPass, 0);
    if k == |sel| then Run(Ok, Applies(sel, username, oldPass, newPass))
    else
      var failure := ApplyOutcome(backend, sel, username, oldPass, newPass, k);
      if Escapes(failure) then Run(failure, Applies(sel[..k + 1], username, oldPass, newPass))
      else Compensated(backend, sel, username, oldPass, newPass, k)
  }

  /**
   * The run after the apply call for `sections[k]` raised `Error`: the
   * changed sections are reverted, and the error is re-raised unless an
   * exception other than `Error` escaped from a revert.
   */
  function Compensated(backend: Backends, sections: seq<Section>, username: string, oldPass: string, newPass: string, k: nat): Run
    requires k < |sections|
  {
    var comp := Compensate(backend, sections[..k], username, oldPass, newPass, Applies(sections[..k + 1], username, oldPass, newPass));
    Run(if comp.escaped.Some? then Raise(comp.escaped.value)
        else ApplyOutcome(backend, sections, username, oldPass, newPass, k),
        comp.calls)
  }

  /**
   * After a failure at section `k`: the applies up to `k`, then at most `k`
   * reverts, where call `i` reverts section `2k - i` (the one changed
   * `i - k` places before the failed one).
   */
  lemma CompensatedCalls(backend: Backends, sections: seq<Section>, username: string, oldPass: string, newPass: string, k: nat)
    requires k < |sections|
    ensures var calls := Compensated(backend, sections, username, oldPass, newPass, k).calls;
      && k + 1 <= |calls| <= 2 * k + 1
      && (forall i :: 0 <= i <= k ==> calls[i] == Call(sections[i], username, oldPass, newPass))
      && (forall i :: k < i < |calls| ==> calls[i] == Call(sections[2 * k - i], username, newPass, oldPass))
  {
    var tried := Applies(sections[..k + 1], username, oldPass, newPass);
    var init := sections[..k];
    CompensateKeeps(backend, init, username, oldPass, newPass, tried);
    CompensateTargets(backend, init, username, oldPass, newPass, tried);
    var calls := Compensate(backend, init, username, oldPass, newPass, tried).calls;
    forall i | k < i < |calls|
      ensures calls[i] == Call(sections[2 * k - i], username, newPass, oldPass)
    {
      assert calls[i] == Call(init[2 * k - i], username, newPass, oldPass);
    }
  }

  /**
   * After a failure at section `k` with `Error`: a revert raising `Error`
   * does not stop the later ones; a revert raising anything else ends the run
   * and is what the caller gets; otherwise the caller gets the original
   * error, and then every revert was made.
   */
  lemma CompensatedResult(backend: Backends, sections: seq<Section>, username: string, oldPass: string, newPass: string, k: nat)
    requires k < |sections|
    requires ApplyOutcome(backend, sections, username, oldPass, newPass, k).Raise?
    requires ApplyOutcome(backend, sections, username, oldPass, newPass, k).error.Error?
    ensures var run := Compensated(backend, sections, username, oldPass, newPass, k);
      forall j :: k < j < |run.calls| - 1 ==> !Escapes(OutcomeAt(backend, run.calls, j))
    ensures var run := Compensated(backend, sections, username, oldPass, newPass, k);
      Escapes(run.result) ==> |run.calls| > k + 1 && run.result == OutcomeAt(backend, run.calls, |run.calls| - 1)
    ensures var run := Compensated(backend, sections, username, oldPass, newPass, k);
      !Escapes(run.result) ==> run.result == ApplyOutcome(backend, sections, username, oldPass, newPass, k)
    ensures var run := Compensated(backend, sections, username, oldPass, newPass, k);
      (forall j :: k < j < |run.calls| ==> !Escapes(OutcomeAt(backend, run.calls, j))) ==>
        run.result == ApplyOutcome(backend, sections, username, oldPass, newPass, k)
    ensures var run := Compensated(backend, sections, username, oldPass, newPass, k);
      run.result == ApplyOutcome(backend, sections, username, oldPass, newPass, k) ==> |run.calls| == 2 * k + 1
  {
    var tried := Applies(sections[..k + 1], username, oldPass, newPass);
    CompensateOutcomes(backend, sections[..k], username, oldPass, newPass, tried);
    CompensateTargets(backend, sections[..k], username, oldPass, newPass, tried);
  }

  /** With the original error, the run is every apply up to `k` and then every revert, newest first. */
  lemma CompensatedFully(backend: Backends, sections: seq<Section>, username: string, oldPass: string, newPass: string, k: nat)
    requires k < |sections|
    requires ApplyOutcome(backend, sections, username, oldPass, newPass, k).Raise?
    requires ApplyOutcome(backend, sections, username, oldPass, newPass, k).error.Error?
    requires Compensated(backend, sections, username, oldPass, newPass, k).result
          == ApplyOutcome(backend, sections, username, oldPass, newPass, k)
    ensures Compensated(backend, sections, username, oldPass, newPass, k).calls
         == Applies(sections[..k + 1], username, oldPass, newPass) + Reverts(sections[..k], username, oldPass, newPass)
  {
    CompensatedCalls(backend, sections, username, oldPass, newPass, k);
    CompensatedResult(backend, sections, username, oldPass, newPass, k);
    var calls := Compensated(backend, sections, username, oldPass, newPass, k).calls;
    var whole := Applies(sections[..k + 1], username, oldPass, newPass) + Reverts(sections[..k], username, oldPass, newPass);
    assert |calls| == |whole|;
    forall i | 0 <= i < |calls|
      ensures calls[i] == whole[i]
    {
      if i > k {
        assert whole[i] == Reverts(sections[..k], username, oldPass, newPass)[i - (k + 1)];
        assert sections[..k][k - 1 - (i - (k + 1))] == sections[2 * k - i];
      }
    }
  }

  /** A run ends without an exception exactly when no apply call raises. */
  lemma FailedRunRaises(backend: Backends, config: seq<Section>, username: string, oldPass: string, newPass: string)
    ensures Saga(backend, config, username, oldPass, newPass).result.Ok?
        <==> FirstFailure(backend, Selected(config), username, oldPass, newPass, 0) == |Selected(config)|
  {
  }

  /** A run succeeds exactly when every backend's apply call returns. */
  lemma AllSucceed(backend: Backends, config: seq<Section>, username: string, oldPass: string, newPass: string)
    ensures var sel := Selected(config);
      Saga(backend, config, username, oldPass, newPass).result.Ok?
      <==> forall j :: 0 <= j < |sel| ==> ApplyOutcome(backend, sel, username, oldPass, newPass, j).Ok?
  {
    FailedRunRaises(backend, config, username, oldPass, newPass);
    var sel := Selected(config);
    var k := FirstFailure(backend, sel, username, oldPass, newPass, 0);
    if k < |sel| {
      assert !ApplyOutcome(backend, sel, username, oldPass, newPass, k).Ok?;
    }
  }

  /** A run that succeeds made the apply calls alone, one per backend section in declared order. */
  lemma SuccessAppliesOnly(backend: Backends, config: seq<Section>, username: string, oldPass: string, newPass: string)
    ensures Saga(backend, config, username, oldPass, newPass).result.Ok? ==>
      Saga(backend, config, username, oldPass, newPass).calls == Applies(Selected(config), username, oldPass, newPass)
  {
    FailedRunRaises(backend, config, username, oldPass, newPass);
  }

  /** The run after a failure at section `k` that `except Error` catches. */
  lemma SagaCompensates(backend: Backends, config: seq<Section>, username: string, oldPass: string, newPass: string, k: nat)
    requires k < |Selected(config)|
    requires forall j :: 0 <= j < k ==> ApplyOutcome(backend, Selected(config), username, oldPass, newPass, j).Ok?
    requires ApplyOutcome(backend, Selected(config), username, oldPass, newPass, k).Raise?
    requires ApplyOutcome(backend, Selected(config), username, oldPass, newPass, k).error.Error?
    ensures Saga(backend, config, username, oldPass, newPass) == Compensated(backend, Selected(config), username, oldPass, newPass, k)
  {
    FirstFailureAt(backend, Selected(config), username, oldPass, newPass, 0, k);
  }

  /**
   * When the apply call for section `k` raises `Error` after the earlier ones
   * returned: the run made the applies up to `k`, then at most `k` reverts,
   * newest first, with the passwords swapped.
   */
  lemma FailureReverts(backend: Backends, config: seq<Section>, username: string, oldPass: string, newPass: string, k: nat)
    requires k < |Selected(config)|
    requires forall j :: 0 <= j < k ==> ApplyOutcome(backend, Selected(config), username, oldPass, newPass, j).Ok?
    requires ApplyOutcome(backend, Selected(config), username, oldPass, newPass, k).Raise?
    requires ApplyOutcome(backend, Selected(config), username, oldPass, newPass, k).error.Error?
    ensures var calls := Saga(backend, config, username, oldPass, newPass).calls;
      && k + 1 <= |calls| <= 2 * k + 1
      && (forall i :: 0 <= i <= k ==> calls[i] == Call(Selected(config)[i], username, oldPass, newPass))
      && (forall i :: k < i < |calls| ==> calls[i] == Call(Selected(config)[2 * k - i], username, newPass, oldPass))
  {
    SagaCompensates(backend, config, username, oldPass, newPass, k);
    CompensatedCalls(backend, Selected(config), username, oldPass, newPass, k);
  }

  /**
   * After the same failure, a revert raising `Error` does not stop the later
   * ones.
   */
  lemma FailurePassesOver(backend: Backends, config: seq<Section>, username: string, oldPass: string, newPass: string, k: nat)
    requires k < |Selected(config)|
    requires forall j :: 0 <= j < k ==> ApplyOutcome(backend, Selected(config), username, oldPass, newPass, j).Ok?
    requires ApplyOutcome(backend, Selected(config), username, oldPass, newPass, k).Raise?
    requires ApplyOutcome(backend, Selected(config), username, oldPass, newPass, k).error.Error?
    ensures var calls := Saga(backend, config, username, oldPass, newPass).calls;
      forall j :: k < j < |calls| - 1 ==> !Escapes(OutcomeAt(backend, calls, j))
  {
    SagaCompensates(backend, config, username, oldPass, newPass, k);
    CompensatedResult(backend, Selected(config), username, oldPass, newPass, k);
  }

  /** After the same failure, when no revert raises anything but `Error`, the caller gets the original error. */
  lemma FailureKeepsError(backend: Backends, config: seq<Section>, username: string, oldPass: string, newPass: string, k: nat)
    requires k < |Selected(config)|
    requires forall j :: 0 <= j < k ==> ApplyOutcome(backend, Selected(config), username, oldPass, newPass, j).Ok?
    requires ApplyOutcome(backend, Selected(config), username, oldPass, newPass, k).Raise?
    requires ApplyOutcome(backend, Selected(config), username, oldPass, newPass, k).error.Error?
    ensures var run := Saga(backend, config, username, oldPass, newPass);
      (forall j :: k < j < |run.calls| ==> !Escapes(OutcomeAt(backend, run.calls, j))) ==>
        run.result == ApplyOutcome(backend, Selected(config), username, oldPass, newPass, k)
  {
    SagaCompensates(backend, config, username, oldPass, newPass, k);
    CompensatedResult(backend, Selected(config), username, oldPass, newPass, k);
  }

  /**
   * When the caller gets the original error, the run made every apply up to
   * the failed one and then reverted every changed section, newest first.
   */
  lemma FailureRevertsAll(backend: Backends, config: seq<Section>, username: string, oldPass: string, newPass: string, k: nat)
    requires k < |Selected(config)|
    requires forall j :: 0 <= j < k ==> ApplyOutcome(backend, Selected(config), username, oldPass, newPass, j).Ok?
    requires ApplyOutcome(backend, Selected(config), username, oldPass, newPass, k).Raise?
    requires ApplyOutcome(backend, Selected(config), username, oldPass, newPass, k).error.Error?
    ensures var run := Saga(backend, config, username, oldPass, newPass);
      run.result == ApplyOutcome(backend, Selected(config), username, oldPass, newPass, k) ==>
        run.calls == Applies(Selected(config)[..k + 1], username, oldPass, newPass)
                     + Reverts(Selected(config)[..k], username, oldPass, newPass)
  {
    SagaCompensates(backend, config, username, oldPass, newPass, k);
    if Compensated(backend, Selected(config), username, oldPass, newPass, k).result
       == ApplyOutcome(backend, Selected(config), username, oldPass, newPass, k) {
      CompensatedFully(backend, Selected(config), username, oldPass, newPass, k);
    }
  }

  /**
   * When the apply call for section `k` raises anything but `Error` after the
   * earlier ones returned, it propagates at once: nothing is reverted.
   */
  lemma UnhandledRevertsNothing(backend: Backends, config: seq<Section>, username: string, oldPass: string, newPass: string, k: nat)
    requires k < |Selected(config)|
    requires forall j :: 0 <= j < k ==> ApplyOutcome(backend, Selected(config), username, oldPass, newPass, j).Ok?
    requires Escapes(ApplyOutcome(backend, Selected(config), username, oldPass, newPass, k))
    ensures Saga(backend, config, username, oldPass, newPass)
         == Run(ApplyOutcome(backend, Selected(config), username, oldPass, newPass, k),
                Applies(Selected(config)[..k + 1], username, oldPass, newPass))
  {
    FirstFailureAt(backend, Selected(config), username, oldPass, newPass, 0, k);
  }

  /** A failure at the first backend section makes no revert at all. */
  lemma FirstBackendFails(backend: Backends, config: seq<Section>, username: string, oldPass: string, newPass: string)
    requires Selected(config) != []
    requires ApplyOutcome(backend, Selected(config), username, oldPass, newPass, 0).Raise?
    ensures Saga(backend, config, username, oldPass, newPass)
         == Run(ApplyOutcome(backend, Selected(config), username, oldPass, newPass, 0),
                [Call(Selected(config)[0], username, oldPass, newPass)])
  {
    var sel := Selected(config);
    assert Applies(sel[..1], username, oldPass, newPass) == [Call(sel[0], username, oldPass, newPass)];
    if !Escapes(ApplyOutcome(backend, sel, username, oldPass, newPass, 0)) {
      var init := sel[..0];
      assert init == [];
    }
  }

  /**
   * An `Error` that reaches the caller is the one raised by the first failing
   * apply call, never one raised by a revert.
   */
  lemma ErrorIsTheOriginal(backend: Backends, config: seq<Section>, username: string, oldPass: string, newPass: string)
    requires Saga(backend, config, username, oldPass, newPass).result.Raise?
    requires Saga(backend, config, username, oldPass, newPass).result.error.Error?
    ensures var k := FirstFailure(backend, Selected(config), username, oldPass, newPass, 0);
      k < |Selected(config)|
      && Saga(backend, config, username, oldPass, newPass).result == ApplyOutcome(backend, Selected(config), username, oldPass, newPass, k)
  {
    var sel := Selected(config);
    var k := FirstFailure(backend, sel, username, oldPass, newPass, 0);
    if k < |sel| && !Escapes(ApplyOutcome(backend, sel, username, oldPass, newPass, k)) {
      CompensatedResult(backend, sel, username, oldPass, newPass, k);
    }
  }

  /** Compensation keeps the earlier calls. */
  lemma {:induction false} CompensateKeeps(backend: Backends, changed: seq<Section>, username: string, oldPass: string, newPass: string, history: seq<Call>)
    ensures var r := Compensate(backend, changed, username, oldPass, newPass, history);
      |history| <= |r.calls| && forall i :: 0 <= i < |history| ==> r.calls[i] == history[i]
    decreases |changed|
  {
    if changed != [] {
      var c := Call(changed[|changed| - 1], username, newPass, oldPass);
      if !Escapes(backend(history, c)) {
        CompensateKeeps(backend, changed[..|changed| - 1], username, oldPass, newPass, history + [c]);
      }
    }
  }

  /**
   * The `n`-th call compensation adds reverts the `n`-th newest changed
   * section, as `username`, with the passwords swapped; unless an exception
   * escaped, every changed section is reverted.
   */
  lemma {:induction false} CompensateTargets(backend: Backends, changed: seq<Section>, username: string, oldPass: string, newPass: string, history: seq<Call>)
    ensures var r := Compensate(backend, changed, username, oldPass, newPass, history);
      && |history| <= |r.calls| <= |history| + |changed|
      && (r.escaped.None? ==> |r.calls| == |history| + |changed|)
      && forall i :: |history| <= i < |r.calls| ==>
           r.calls[i] == Call(changed[|changed| + |history| - 1 - i], username, newPass, oldPass)
    decreases |changed|
  {
    if changed != [] {
      var c := Call(changed[|changed| - 1], username, newPass, oldPass);
      if !Escapes(backend(history, c)) {
        var init := changed[..|changed| - 1];
        var h := history + [c];
        CompensateKeeps(backend, init, username, oldPass, newPass, h);
        CompensateTargets(backend, init, username, oldPass, newPass, h);
        var r := Compensate(backend, init, username, oldPass, newPass, h);
        forall i | |history| <= i < |r.calls|
          ensures r.calls[i] == Call(changed[|changed| + |history| - 1 - i], username, newPass, oldPass)
        {
          if i == |history| {
            assert r.calls[i] == h[i];
          } else {
            assert r.calls[i] == Call(init[|init| + |h| - 1 - i], username, newPass, oldPass);
          }
        }
      }
    }
  }

  /** Every call a run makes is to a configured backend section, as the user asking for the change. */
  lemma OnlyBackendSections(backend: Backends, config: seq<Section>, username: string, oldPass: string, newPass: string)
    ensures forall c :: c in Saga(backend, config, username, oldPass, newPass).calls ==>
      c.section in config && IsBackend(c.section.name) && c.username == username
  {
    var sel := Selected(config);
    var calls := Saga(backend, config, username, oldPass, newPass).calls;
    RunTargets(backend, config, username, oldPass, newPass);
    SelectedMembers(config);
    forall c | c in calls
      ensures c.section in sel && c.username == username
    {
      var i :| 0 <= i < |calls| && calls[i] == c;
    }
  }

  /** The apply calls for a prefix of `sections` are for sections of it, as `username`. */
  lemma AppliesTargets(sections: seq<Section>, m: nat, username: string, oldPass: string, newPass: string)
    requires m <= |sections|
    ensures var calls := Applies(sections[..m], username, oldPass, newPass);
      forall i :: 0 <= i < |calls| ==> calls[i].section in sections && calls[i].username == username
  {
    var calls := Applies(sections[..m], username, oldPass, newPass);
    forall i | 0 <= i < |calls|
      ensures calls[i].section in sections
    {
      assert calls[i].section == sections[i];
    }
  }

  /** Every call of a run, by index: a backend section, as `username`. */
  lemma RunTargets(backend: Backends, config: seq<Section>, username: string, oldPass: string, newPass: string)
    ensures var calls := Saga(backend, config, username, oldPass, newPass).calls;
      forall i :: 0 <= i < |calls| ==> calls[i].section in Selected(config) && calls[i].username == username
  {
    var sel := Selected(config);
    var k := FirstFailure(backend, sel, username, oldPass, newPass, 0);
    if k == |sel| {
      assert sel[..|sel|] == sel;
      AppliesTargets(sel, |sel|, username, oldPass, newPass);
    } else if Escapes(ApplyOutcome(backend, sel, username, oldPass, newPass, k)) {
      AppliesTargets(sel, k + 1, username, oldPass, newPass);
    } else {
      CompensationTargets(backend, sel, username, oldPass, newPass, k);
    }
  }

  /** The calls after compensating a failure at section `k` are for sections of `sections`, as `username`. */
  lemma CompensationTargets(backend: Backends, sections: seq<Section>, username: string, oldPass: string, newPass: string, k: nat)
    requires k < |sections|
    ensures var calls := Compensated(backend, sections, username, oldPass, newPass, k).calls;
      forall i :: 0 <= i < |calls| ==> calls[i].section in sections && calls[i].username == username
  {
    CompensatedCalls(backend, sections, username, oldPass, newPass, k);
    var calls := Compensated(backend, sections, username, oldPass, newPass, k).calls;
    forall i | 0 <= i < |calls|
      ensures calls[i].section in sections
    {
      if i <= k {
        assert calls[i].section == sections[i];
      } else {
        assert calls[i].section == sections[2 * k - i];
      }
    }
  }

  /**
   * With distinct section names (as a configuration file has them), the
   * reverts after a failure at section `k` go only to sections before `k`:
   * never to the failed one or to any later one.
   */
  lemma RevertsSpareTheFailed(backend: Backends, config: seq<Section>, username: string, oldPass: string, newPass: string, k: nat)
    requires forall i, j :: 0 <= i < j < |config| ==> config[i].name != config[j].name
    requires k < |Selected(config)|
    requires forall j :: 0 <= j < k ==> ApplyOutcome(backend, Selected(config), username, oldPass, newPass, j).Ok?
    requires ApplyOutcome(backend, Selected(config), username, oldPass, newPass, k).Raise?
    ensures var run := Saga(backend, config, username, oldPass, newPass);
      forall i, m :: k < i < |run.calls| && k <= m < |Selected(config)| ==>
        run.calls[i].section.name != Selected(config)[m].name
  {
    var sel := Selected(config);
    SelectedDistinct(config);
    if ApplyOutcome(backend, sel, username, oldPass, newPass, k).error.Error? {
      FailureReverts(backend, config, username, oldPass, newPass, k);
    } else {
      UnhandledRevertsNothing(backend, config, username, oldPass, newPass, k);
    }
  }

  /**
   * Backends A and B are changed and C then fails with `Error`; no revert
   * escapes. The run reverts B, then A, with the passwords swapped, and
   * reports C's error.
   */
  lemma ThreeBackendsScenario(backend: Backends, a: Section, b: Section, c: Section, username: string, oldPass: string, newPass: string, message: string)
    requires IsBackend(a.name) && IsBackend(b.name) && IsBackend(c.name)
    requires backend([], Call(a, username, oldPass, newPass)) == Ok
    requires backend([Call(a, username, oldPass, newPass)], Call(b, username, oldPass, newPass)) == Ok
    requires backend([Call(a, username, oldPass, newPass), Call(b, username, oldPass, newPass)], Call(c, username, oldPass, newPass))
          == Raise(Error(message))
    requires backend([Call(a, username, oldPass, newPass), Call(b, username, oldPass, newPass), Call(c, username, oldPass, newPass)],
                     Call(b, username, newPass, oldPass)) == Ok
    requires backend([Call(a, username, oldPass, newPass), Call(b, username, oldPass, newPass), Call(c, username, oldPass, newPass),
                      Call(b, username, newPass, oldPass)], Call(a, username, newPass, oldPass)) == Ok
    ensures Saga(backend, [a, b, c], username, oldPass, newPass)
         == Run(Raise(Error(message)),
                [Call(a, username, oldPass, newPass), Call(b, username, oldPass, newPass), Call(c, username, oldPass, newPass),
                 Call(b, username, newPass, oldPass), Call(a, username, newPass, oldPass)])
  {
    var config := [a, b, c];
    assert Selected(config) == config by {
      assert Selected([c]) == [c] by { assert [c][1..] == []; }
      assert Selected([b, c]) == [b, c] by { assert [b, c][1..] == [c]; }
      assert config[1..] == [b, c];
    }
    var applyA := Call(a, username, oldPass, newPass);
    var applyB := Call(b, username, oldPass, newPass);
    var applyC := Call(c, username, oldPass, newPass);
    assert config[..0] == [] && config[..1] == [a] && config[..2] == [a, b] && config[..3] == config;
    assert Applies([a], username, oldPass, newPass) == [applyA];
    assert Applies([a, b], username, oldPass, newPass) == [applyA, applyB];
    var apply := Applies(config, username, oldPass, newPass);
    assert apply == [applyA, applyB, applyC];
    assert apply + [Call(b, username, newPass, oldPass)] == [applyA, applyB, applyC, Call(b, username, newPass, oldPass)];
    SagaCompensates(backend, config, username, oldPass, newPass, 2);
    RevertTwo(backend, a, b, username, oldPass, newPass, apply);
  }

  /** Reverting `[a, b]` after `history` when both reverts return: `b` first, then `a`. */
  lemma RevertTwo(backend: Backends, a: Section, b: Section, username: string, oldPass: string, newPass: string, history: seq<Call>)
    requires backend(history, Call(b, username, newPass, oldPass)) == Ok
    requires backend(history + [Call(b, username, newPass, oldPass)], Call(a, username, newPass, oldPass)) == Ok
    ensures Compensate(backend, [a, b], username, oldPass, newPass, history)
         == Compensation(history + [Call(b, username, newPass, oldPass), Call(a, username, newPass, oldPass)], Maybe.None)
  {
    var revB := Call(b, username, newPass, oldPass);
    var revA := Call(a, username, newPass, oldPass);
    CompensateStep(backend, [a, b], username, oldPass, newPass, history);
    assert [a, b][..1] == [a];
    CompensateStep(backend, [a], username, oldPass, newPass, history + [revB]);
    assert [a][..0] == [];
    assert history + [revB] + [revA] == history + [revB, revA];
  }

  /**
   * Two backends through the modelled `change_password`: a plain directory
   * `a` that accepts every change, then an Active Directory `b` that refuses
   * the new password with a constraint violation. The user sees the
   * informative part of the server's message, and `a` gets one revert.
   */
  lemma TwoBackendsThroughDirectory(directory: DirectoryOracle, a: Section, b: Section, username: string, oldPass: string, newPass: string,
                                    dnA: string, dnB: string, message: string)
    requires IsBackend(a.name) && IsBackend(b.name)
    requires !Backend.IsAd(a.options) && LookupConfigured(a.options)
    requires Backend.IsAd(b.options) && "ad_domain" in b.options && LookupConfigured(b.options)
    requires forall history: seq<Call>, c: Call :: c.section == a ==> directory(history, c) == Replies(Done, Entries([dnA]), Done, Done)
    requires directory([Call(a, username, oldPass, newPass)], Call(b, username, oldPass, newPass))
          == Replies(Done, Entries([dnB]), Done, Failed(ConstraintViolationResult(message)))
    ensures Saga(ThroughDirectory(directory), [a, b], username, oldPass, newPass)
         == Run(Raise(Error(Backend.RestrictionMessage(message))),
                [Call(a, username, oldPass, newPass), Call(b, username, oldPass, newPass), Call(a, username, newPass, oldPass)])
  {
    var backend := ThroughDirectory(directory);
    var applyA := Call(a, username, oldPass, newPass);
    var applyB := Call(b, username, oldPass, newPass);
    var revertA := Call(a, username, newPass, oldPass);
    assert backend([], applyA) == Ok;
    assert backend([applyA], applyB) == Raise(Error(Backend.RestrictionMessage(message)));
    assert backend([applyA, applyB], revertA) == Ok;
    var config := [a, b];
    assert Selected(config) == config by {
      assert Selected([b]) == [b] by { assert [b][1..] == []; }
      assert config[1..] == [b];
    }
    assert config[..0] == [] && config[..1] == [a] && config[..2] == config;
    assert Applies([a], username, oldPass, newPass) == [applyA];
    assert Applies(config, username, oldPass, newPass) == [applyA, applyB];
    SagaCompensates(backend, config, username, oldPass, newPass, 1);
    CompensateStep(backend, [a], username, oldPass, newPass, [applyA, applyB]);
    assert [a][..0] == [];
  }

  /**
   * A plain backend `a` that accepts, then a plain backend `b` whose host
   * cannot be reached: `b` is reported as unreachable even though it lacks
   * `search_filter`, since the lookup connection is entered before the
   * option is read, so `a` is reverted.
   */
  lemma UnreachableSecondBackend(directory: DirectoryOracle, a: Section, b: Section, username: string, oldPass: string, newPass: string,
                                 dnA: string)
    requires IsBackend(a.name) && IsBackend(b.name)
    requires !Backend.IsAd(a.options) && LookupConfigured(a.options)
    requires !Backend.IsAd(b.options) && HostKey in b.options && "search_filter" !in b.options
    requires forall history: seq<Call>, c: Call :: c.section == a ==> directory(history, c) == Replies(Done, Entries([dnA]), Done, Done)
    requires directory([Call(a, username, oldPass, newPass)], Call(b, username, oldPass, newPass)).connectReply == Failed(SocketOpenError)
    ensures Saga(ThroughDirectory(directory), [a, b], username, oldPass, newPass)
         == Run(Raise(Error(Backend.CannotConnect)),
                [Call(a, username, oldPass, newPass), Call(b, username, oldPass, newPass), Call(a, username, newPass, oldPass)])
  {
    var backend := ThroughDirectory(directory);
    var applyA := Call(a, username, oldPass, newPass);
    var applyB := Call(b, username, oldPass, newPass);
    var revertA := Call(a, username, newPass, oldPass);
    assert backend([], applyA) == Ok;
    assert backend([applyA], applyB) == Raise(Error(Backend.CannotConnect));
    assert backend([applyA, applyB], revertA) == Ok;
    var config := [a, b];
    assert Selected(config) == config by {
      assert Selected([b]) == [b] by { assert [b][1..] == []; }
      assert config[1..] == [b];
    }
    assert config[..0] == [] && config[..1] == [a] && config[..2] == config;
    assert Applies([a], username, oldPass, newPass) == [applyA];
    assert Applies(config, username, oldPass, newPass) == [applyA, applyB];
    SagaCompensates(backend, config, username, oldPass, newPass, 1);
    CompensateStep(backend, [a], username, oldPass, newPass, [applyA, applyB]);
    assert [a][..0] == [];
  }

  /**
   * One plain backend that refuses the old password at the bind: the user is
   * told the credentials are wrong, and nothing is reverted.
   */
  lemma OneBackendWrongPassword(directory: DirectoryOracle, a: Section, username: string, oldPass: string, newPass: string, dn: string)
    requires IsBackend(a.name) && !Backend.IsAd(a.options) && LookupConfigured(a.options)
    requires directory([], Call(a, username, oldPass, newPass)) == Replies(Done, Entries([dn]), Failed(InvalidCredentialsResult), Done)
    ensures Saga(ThroughDirectory(directory), [a], username, oldPass, newPass)
         == Run(Raise(Error(Backend.IncorrectCredentials)), [Call(a, username, oldPass, newPass)])
  {
    var backend := ThroughDirectory(directory);
    var applyA := Call(a, username, oldPass, newPass);
    assert backend([], applyA) == Raise(Error(Backend.IncorrectCredentials));
    assert Selected([a]) == [a] by { assert [a][1..] == []; }
    assert [a][..0] == [] && [a][..1] == [a];
    assert Applies([a], username, oldPass, newPass) == [applyA];
    SagaCompensates(backend, [a], username, oldPass, newPass, 0);
  }

  /**
   * The compensation loop of `change_passwords`: `for key in reversed(changed)`,
   * calling with the passwords swapped and passing over `Error`.
   */
  method RevertChanged(backend: Backends, changed: seq<Section>, username: string, oldPass: string, newPass: string, history: seq<Call>)
    returns (escaped: Maybe.Option<Exc>, calls: seq<Call>)
    ensures Compensation(calls, escaped) == Compensate(backend, changed, username, oldPass, newPass, history)
  {
    calls := history;
    var j := |changed|;
    assert changed[..j] == changed;
    while j > 0
      invariant 0 <= j <= |changed|
      invariant Compensate(backend, changed[..j], username, oldPass, newPass, calls)
             == Compensate(backend, changed, username, oldPass, newPass, history)
    {
      var back := Call(changed[j - 1], username, newPass, oldPass);
      var reverted := backend(calls, back);
      CompensateStep(backend, changed[..j], username, oldPass, newPass, calls);
      assert changed[..j][..j - 1] == changed[..j - 1];
      calls := calls + [back];
      if Escapes(reverted) {
        return Maybe.Some(reverted.error), calls;
      }
      j := j - 1;
    }
    escaped := Maybe.None;
  }

  /** `change_passwords(username, old_pass, new_pass)` over the configuration `config`. */
  method ChangePasswords(config: seq<Section>, username: string, oldPass: string, newPass: string, backend: Backends)
    returns (result: Outcome, calls: seq<Call>)
    ensures Run(result, calls) == Saga(backend, config, username, oldPass, newPass)
  {
    var sections := Selected(config);
    var changed: seq<Section> := [];
    calls := [];
    var i := 0;
    while i < |sections|
      invariant i <= |sections|
      invariant changed == sections[..i]
      invariant calls == Applies(sections[..i], username, oldPass, newPass)
      invariant FirstFailure(backend, sections, username, oldPass, newPass, 0)
             == FirstFailure(backend, sections, username, oldPass, newPass, i)
    {
      var key := sections[i];
      var call := Call(key, username, oldPass, newPass);
      var outcome := backend(calls, call);
      assert outcome == ApplyOutcome(backend, sections, username, oldPass, newPass, i);
      AppliesSnoc(sections, username, oldPass, newPass, i);
      calls := calls + [call];
      if outcome.Ok? {
        changed := changed + [key];
        assert sections[..i + 1] == sections[..i] + [key];
      } else {
        assert FirstFailure(backend, sections, username, oldPass, newPass, 0) == i;
        if Escapes(outcome) {
          result := outcome;
          return;
        }
        var escaped;
        escaped, calls := RevertChanged(backend, changed, username, oldPass, newPass, calls);
        if escaped.Some? {
          result := Raise(escaped.value);
          return;
        }
        result := outcome;
        return;
      }
      i := i + 1;
    }
    assert sections[..i] == sections;
    result := Ok;
  }
}
