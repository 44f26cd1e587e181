/** The process-exclusion processor: one object answering to three
    interfaces, the interception filter (`examineFile`,
    `examineFilesystem`, `enable`, `disable`, `isEnabled`), the process
    excluder (`registerProcess`, `deregisterProcess`, `active`, `idle`) and
    the configurable (`configName`, `allConfig`, `config`, `setConfig`).
    Its state is the registry, the counter that supplies fresh handles, the
    `mEnabled` flag and the value stored under the `status` key. */
module ProcessExclusion {
  import opened Options
  import opened Registry
  import opened Configuration

  /** The execution context of the calling thread: `current->files`,
      `current->tgid` and `current->pid`. */
  datatype Caller = Caller(files: Identity, tgid: nat, pid: nat)

  /** The recommended action of an evaluation report. Only `Allow` is ever
      set by this processor; the framework's other actions are opaque. */
  datatype Action = Allow | Other(code: nat)

  /** The evaluation report an interception callback may amend. */
  datatype Report = Report(recommendedAction: Action)

  datatype Processor = Processor(excluded: seq<Record>, nextHandle: Handle, enabled: bool, status: string)

  /** The result of an excluder call that may create a record: the new
      state and the handle given back, None where C returns a null pointer. */
  datatype Step = Step(state: Processor, handle: Option<Handle>)

  /** Structural invariant of the list: distinct records, and every handle
      already issued, so the next one is fresh. */
  ghost predicate Valid(p: Processor) {
    && DistinctHandles(p.excluded)
    && forall i :: 0 <= i < |p.excluded| ==> p.excluded[i].handle < p.nextHandle
  }

  /** The `status` value is in step with `mEnabled`. */
  ghost predicate Consistent(p: Processor) {
    Config(p, StatusKey) == Some(if p.enabled then ValueEnabled else ValueDisabled)
  }

  /** The state of the template object copied by `newProcessExclusionProcessor`. */
  const Template: Processor := Processor([], 0, true, ValueEnabled)

  /** `newProcessExclusionProcessor`: None when the object cannot be
      allocated, otherwise an enabled processor with an empty registry. */
  function New(allocOk: bool): (r: Option<Processor>)
    ensures r.Some? <==> allocOk
    ensures r.Some? ==> && r.value.excluded == []
                        && IsEnabled(r.value)
                        && Config(r.value, StatusKey) == Some(ValueEnabled)
                        && Valid(r.value)
                        && Consistent(r.value)
  {
    if allocOk then Some(Template) else None
  }

  /** `deleteProcessExclusionProcessor`: unlink and free every record from
      the head of the list on. The handles freed are returned in order. */
  method Delete(p: Processor) returns (reclaimed: seq<Handle>)
    ensures |reclaimed| == |p.excluded|
    ensures forall i :: 0 <= i < |reclaimed| ==> reclaimed[i] == p.excluded[i].handle
    ensures forall h :: h in reclaimed <==> IsMember(p.excluded, h)
  {
    var remaining := p.excluded;
    reclaimed := [];
    while remaining != []
      invariant |reclaimed| + |remaining| == |p.excluded|
      invariant remaining == p.excluded[|reclaimed|..]
      invariant forall i :: 0 <= i < |reclaimed| ==> reclaimed[i] == p.excluded[i].handle
      decreases |remaining|
    {
      reclaimed := reclaimed + [remaining[0].handle];
      remaining := remaining[1..];
    }
    forall h | IsMember(p.excluded, h) ensures h in reclaimed {
      var i :| 0 <= i < |p.excluded| && p.excluded[i].handle == h;
      assert reclaimed[i] == h;
    }
  }

  /** `checkProcessExcluded` for the calling context. */
  function IsExcluded(p: Processor, caller: Caller): bool {
    Check(p.excluded, caller.files)
  }

  /** `examineFile`: recommend Allow exactly when the caller is excluded,
      otherwise leave the report alone. `mEnabled` is not consulted. */
  function ExamineFile(p: Processor, caller: Caller, report: Report): (r: Report)
    ensures Excluded(p.excluded, caller.files) ==> r.recommendedAction == Allow
    ensures !Excluded(p.excluded, caller.files) ==> r == report
  {
    if IsExcluded(p, caller) then report.(recommendedAction := Allow) else report
  }

  /** `examineFilesystem`: the same decision for a mount operation. */
  function ExamineFilesystem(p: Processor, caller: Caller, report: Report): (r: Report)
    ensures Excluded(p.excluded, caller.files) ==> r.recommendedAction == Allow
    ensures !Excluded(p.excluded, caller.files) ==> r == report
  {
    if IsExcluded(p, caller) then report.(recommendedAction := Allow) else report
  }

  /** The record `registerProcess` links for `caller`, with handle `h`. */
  function Fresh(caller: Caller, h: Handle, flag: bool): Record {
    Record(h, caller.files, caller.tgid, caller.pid, flag)
  }

  /** `registerProcess`: allocate an idle record for the caller and link it
      at the tail. No check is made for an existing record of the same
      identity. On allocation failure nothing changes. */
  function Register(p: Processor, caller: Caller, allocOk: bool): (r: Step)
    ensures !allocOk ==> r == Step(p, None)
    ensures allocOk ==> && r.handle.Some?
                        && r.state.excluded == p.excluded + [Fresh(caller, r.handle.value, false)]
                        && r.state.enabled == p.enabled
                        && r.state.status == p.status
    ensures Valid(p) && r.handle.Some? ==> !IsMember(p.excluded, r.handle.value)
    ensures Valid(p) ==> Valid(r.state)
  {
    if !allocOk then Step(p, None)
    else
      var h := p.nextHandle;
      var q := p.(excluded := p.excluded + [Fresh(caller, h, false)], nextHandle := h + 1);
      assert Valid(p) ==> !IsMember(p.excluded, h);
      Step(q, Some(h))
  }

  /** `deregisterProcess`: unlink the record with handle `h`; a handle that
      is not a member (a client older than the processor) is ignored. */
  function Deregister(p: Processor, h: Handle): (q: Processor)
    ensures !IsMember(p.excluded, h) ==> q == p
    ensures IsMember(p.excluded, h) ==> SplicedOut(p.excluded, q.excluded, IndexOf(p.excluded, h))
    ensures q.enabled == p.enabled && q.status == p.status
    ensures Valid(p) ==> && Valid(q)
                         && !IsMember(q.excluded, h)
                         && forall g :: g != h ==> (IsMember(q.excluded, g) <==> IsMember(p.excluded, g))
  {
    if !Find(p.excluded, h) then p
    else
      var q := p.(excluded := Remove(p.excluded, h));
      assert Valid(p) ==> Valid(q) && !IsMember(q.excluded, h) by {
        if Valid(p) {
          RemoveEffect(p.excluded, h);
          forall i | 0 <= i < |q.excluded| ensures q.excluded[i].handle < q.nextHandle {
            var g := q.excluded[i].handle;
            assert IsMember(q.excluded, g);
          }
        }
      }
      assert Valid(p) ==> forall g :: g != h ==> (IsMember(q.excluded, g) <==> IsMember(p.excluded, g)) by {
        if Valid(p) { RemoveEffect(p.excluded, h); }
      }
      q
  }

  /** What `active` (flag true) and `idle` (flag false) promise, with the
      failed implicit registration reported as a None handle:
      - a handle is returned unless `h` is not a member and allocation fails,
        and then nothing changes;
      - the returned handle is a member carrying `flag`;
      - for a member `h`, `h` itself is returned and only its flag changes;
      - otherwise exactly one record, the returned one, is added at the tail. */
  ghost predicate MarkedAs(p: Processor, h: Handle, caller: Caller, allocOk: bool, flag: bool, r: Step) {
    && (r.handle.None? <==> !IsMember(p.excluded, h) && !allocOk)
    && (r.handle.None? ==> r.state == p)
    && (r.handle.Some? ==> IsMember(r.state.excluded, r.handle.value)
                           && FlagIs(r.state.excluded, r.handle.value, flag))
    && (IsMember(p.excluded, h) ==> r.handle == Some(h)
                                    && OnlyFlagChanged(p.excluded, r.state.excluded, h, flag))
    && (!IsMember(p.excluded, h) && allocOk && Valid(p) ==>
          && r.handle.Some?
          && !IsMember(p.excluded, r.handle.value)
          && r.state.excluded == p.excluded + [Fresh(caller, r.handle.value, flag)])
    && r.state.enabled == p.enabled
    && r.state.status == p.status
  }

  /** Appending a record with a fresh handle and then setting that handle's
      flag is the same as appending the record with the flag already set. */
  lemma {:induction false} SetFlagOfAppended(reg: seq<Record>, rec: Record, flag: bool)
    requires !IsMember(reg, rec.handle)
    ensures SetFlag(reg + [rec], rec.handle, flag) == reg + [rec.(active := flag)]
  {
    var upd := SetFlag(reg + [rec], rec.handle, flag);
    assert forall i :: 0 <= i < |reg| ==> reg[i].handle != rec.handle;
    forall i | 0 <= i < |reg| ensures upd[i] == reg[i] {
      assert (reg + [rec])[i] == reg[i];
    }
    assert upd[|reg|] == rec.(active := flag);
  }

  /** Shared body of `active` and `idle`: re-register implicitly when `h`
      is not a member, then set the flag. */
  function Mark(p: Processor, h: Handle, caller: Caller, allocOk: bool, flag: bool): (r: Step)
    ensures MarkedAs(p, h, caller, allocOk, flag, r)
    ensures Valid(p) ==> Valid(r.state)
  {
    if Find(p.excluded, h) then
      var reg := SetFlag(p.excluded, h, flag);
      SetFlagEffect(p.excluded, h, flag);
      var q := p.(excluded := reg);
      assert Valid(p) ==> Valid(q) by {
        if Valid(p) {
          assert forall i :: 0 <= i < |reg| ==> reg[i].handle == p.excluded[i].handle;
        }
      }
      Step(q, Some(h))
    else
      var s := Register(p, caller, allocOk);
      match s.handle
      case None => s
      case Some(g) =>
        var reg := SetFlag(s.state.excluded, g, flag);
        SetFlagEffect(s.state.excluded, g, flag);
        assert s.state.excluded[|p.excluded|].handle == g;
        var q := s.state.(excluded := reg);
        assert Valid(p) ==> reg == p.excluded + [Fresh(caller, g, flag)] by {
          if Valid(p) { SetFlagOfAppended(p.excluded, Fresh(caller, g, false), flag); }
        }
        assert Valid(p) ==> Valid(q) by {
          if Valid(p) {
            assert forall i :: 0 <= i < |reg| ==> reg[i].handle == s.state.excluded[i].handle;
          }
        }
        Step(q, Some(g))
  }

  /** `active`: mark the caller's record active, registering it first if
      `h` is not a member. */
  function Active(p: Processor, h: Handle, caller: Caller, allocOk: bool): (r: Step)
    ensures MarkedAs(p, h, caller, allocOk, true, r)
    ensures Valid(p) ==> Valid(r.state)
  {
    Mark(p, h, caller, allocOk, true)
  }

  /** `idle`: mark the caller's record idle, registering it first if `h` is
      not a member. */
  function Idle(p: Processor, h: Handle, caller: Caller, allocOk: bool): (r: Step)
    ensures MarkedAs(p, h, caller, allocOk, false, r)
    ensures Valid(p) ==> Valid(r.state)
  {
    Mark(p, h, caller, allocOk, false)
  }

  /** `enable`: a no-op when already enabled; otherwise set `mEnabled` and
      store `enabled` under `status`. */
  function Enable(p: Processor): (q: Processor)
    ensures IsEnabled(q)
    ensures IsEnabled(p) ==> q == p
    ensures !IsEnabled(p) ==> Config(q, StatusKey) == Some(ValueEnabled)
    ensures q.excluded == p.excluded && q.nextHandle == p.nextHandle
    ensures Consistent(p) ==> Consistent(q)
  {
    if !p.enabled then p.(enabled := true, status := ValueEnabled) else p
  }

  /** `disable`: a no-op when already disabled; otherwise clear `mEnabled`
      and store `disabled` under `status`. */
  function Disable(p: Processor): (q: Processor)
    ensures !IsEnabled(q)
    ensures !IsEnabled(p) ==> q == p
    ensures IsEnabled(p) ==> Config(q, StatusKey) == Some(ValueDisabled)
    ensures q.excluded == p.excluded && q.nextHandle == p.nextHandle
    ensures Consistent(p) ==> Consistent(q)
  {
    if p.enabled then p.(enabled := false, status := ValueDisabled) else p
  }

  /** `isEnabled`. */
  function IsEnabled(p: Processor): bool {
    p.enabled
  }

  /** `configName`. */
  function ConfigName(p: Processor): string {
    ComponentName
  }

  /** `allConfig`: the one-entry table of the processor. */
  function AllConfig(p: Processor): (table: seq<ConfigElement>)
    ensures |table| == 1
    ensures forall n :: Lookup(table, n) == (if n == StatusKey then Some(p.status) else None)
    ensures forall i :: 0 <= i < |table| ==> Lookup(table, table[i].name) == Some(table[i].value)
  {
    var table := [ConfigElement(StatusKey, p.status)];
    LookupFindsEveryEntry(table, 0);
    table
  }

  /** `config`: the value stored under `name`, None for an unknown name. */
  function Config(p: Processor, name: string): (r: Option<string>)
    ensures name == StatusKey ==> r == Some(p.status)
    ensures name != StatusKey ==> r == None
  {
    Lookup(AllConfig(p), name)
  }

  /** `setConfig`: an unknown name is ignored; for `status`, the action
      `enable` enables, `disable` disables, and any other value is ignored. */
  function SetConfig(p: Processor, name: string, value: string): (q: Processor)
    ensures Config(p, name).None? ==> q == p
    ensures name == StatusKey && value == ActionEnable ==> q == Enable(p)
    ensures name == StatusKey && value == ActionDisable ==> q == Disable(p)
    ensures value != ActionEnable && value != ActionDisable ==> q == p
    ensures q.excluded == p.excluded && q.nextHandle == p.nextHandle
    ensures Consistent(p) ==> Consistent(q)
  {
    if Lookup(AllConfig(p), name).None? then p
    else if name == StatusKey then
      if value == ActionEnable then Enable(p)
      else if value == ActionDisable then Disable(p)
      else p
    else p
  }
}
