/** Properties relating several operations of the processor: inverse pairs,
    the client's bracketing protocol, idempotent toggles and configuration
    round trips. */
module ExclusionProperties {
  import opened Options
  import opened Registry
  import opened Configuration
  import opened ProcessExclusion

  /** Behind a list with no record of `id`, an appended record decides
      alone whether `id` is excluded. */
  lemma {:induction false} AppendedDecides(reg: seq<Record>, rec: Record, id: Identity)
    requires Unclaimed(reg, id)
    ensures Excluded(reg + [rec], id) <==> rec.unique == id && rec.active
  {
    var ext := reg + [rec];
    if rec.unique == id && rec.active {
      assert NoneBefore(ext, id, |reg|) by {
        forall j | 0 <= j < |reg| ensures ext[j].unique != id { assert ext[j] == reg[j]; }
      }
      assert ext[|reg|] == rec;
    }
  }

  /** Changing only the flag of a freshly appended record changes only the
      last element. */
  lemma {:induction false} FlagOfLast(reg: seq<Record>, rec: Record, after: seq<Record>, flag: bool)
    requires !IsMember(reg, rec.handle)
    requires OnlyFlagChanged(reg + [rec], after, rec.handle, flag)
    ensures after == reg + [rec.(active := flag)]
  {
    assert forall i :: 0 <= i < |reg| ==> reg[i].handle != rec.handle;
    forall i | 0 <= i < |after| ensures after[i] == (reg + [rec.(active := flag)])[i] {
      if i < |reg| { assert (reg + [rec])[i] == reg[i]; }
    }
  }

  /** Unlinking a freshly appended record gives back the list before it. */
  lemma {:induction false} RemoveLast(reg: seq<Record>, rec: Record)
    requires !IsMember(reg, rec.handle)
    ensures Remove(reg + [rec], rec.handle) == reg
  {
    var ext := reg + [rec];
    assert ext[|reg|].handle == rec.handle;
    assert forall i :: 0 <= i < |reg| ==> ext[i].handle != rec.handle;
    var k := IndexOf(ext, rec.handle);
    assert ext[..k] == reg;
  }

  /** `deregisterProcess` undoes a successful `registerProcess`. */
  lemma {:induction false} DeregisterUndoesRegister(p: Processor, caller: Caller)
    requires Valid(p)
    ensures Deregister(Register(p, caller, true).state, Register(p, caller, true).handle.value).excluded == p.excluded
  {
    var s := Register(p, caller, true);
    var h := s.handle.value;
    assert s.state.excluded[|p.excluded|].handle == h;
    RemoveLast(p.excluded, Fresh(caller, h, false));
  }

  /** `idle` after `active` on an idle member restores the processor. */
  lemma {:induction false} IdleUndoesActive(p: Processor, h: Handle, caller: Caller, alloc1: bool, alloc2: bool)
    requires IsMember(p.excluded, h)
    requires FlagIs(p.excluded, h, false)
    ensures Idle(Active(p, h, caller, alloc1).state, h, caller, alloc2).state == p
  {
    var a := Active(p, h, caller, alloc1).state;
    var b := Idle(a, h, caller, alloc2).state;
    assert IsMember(a.excluded, h) by {
      var i :| 0 <= i < |p.excluded| && p.excluded[i].handle == h;
      assert a.excluded[i].handle == h;
    }
    forall i | 0 <= i < |p.excluded| ensures b.excluded[i] == p.excluded[i] {
      assert a.excluded[i].handle == p.excluded[i].handle;
    }
    assert b.excluded == p.excluded;
  }

  /** The state after a successful `registerProcess` followed by a flag
      write on the handle it returned: the old list plus one record of the
      caller carrying `flag`. */
  lemma {:induction false} RegisterThenMark(p: Processor, caller: Caller, allocOk: bool, flag: bool)
    requires Valid(p)
    ensures var s := Register(p, caller, true);
            var m := Mark(s.state, s.handle.value, caller, allocOk, flag);
            && m.handle == s.handle
            && m.state.excluded == p.excluded + [Fresh(caller, s.handle.value, flag)]
  {
    var s := Register(p, caller, true);
    var h := s.handle.value;
    assert s.state.excluded[|p.excluded|].handle == h;
    FlagOfLast(p.excluded, Fresh(caller, h, false), Mark(s.state, h, caller, allocOk, flag).state.excluded, flag);
  }

  /** The client's bracketing protocol for an identity with no record,
      first half: after register and `active`, both callbacks recommend
      Allow for the caller. */
  lemma {:induction false} BracketActive(p: Processor, caller: Caller, report: Report, allocOk: bool)
    requires Valid(p)
    requires Unclaimed(p.excluded, caller.files)
    ensures var s1 := Register(p, caller, true);
            var s2 := Active(s1.state, s1.handle.value, caller, allocOk);
            && ExamineFile(s2.state, caller, report).recommendedAction == Allow
            && ExamineFilesystem(s2.state, caller, report).recommendedAction == Allow
  {
    var s1 := Register(p, caller, true);
    RegisterThenMark(p, caller, allocOk, true);
    AppendedDecides(p.excluded, Fresh(caller, s1.handle.value, true), caller.files);
  }

  /** Second half: `idle` on the active record gives the same handle back,
      both callbacks leave the report alone, and `deregister` restores the
      registry the client started from. */
  lemma {:induction false} BracketIdle(p: Processor, caller: Caller, report: Report, allocOk: bool)
    requires Valid(p)
    requires Unclaimed(p.excluded, caller.files)
    ensures var s1 := Register(p, caller, true);
            var a := s1.state.(excluded := p.excluded + [Fresh(caller, s1.handle.value, true)]);
            var s3 := Idle(a, s1.handle.value, caller, allocOk);
            && s3.handle == s1.handle
            && ExamineFile(s3.state, caller, report) == report
            && ExamineFilesystem(s3.state, caller, report) == report
            && Deregister(s3.state, s1.handle.value).excluded == p.excluded
  {
    var s1 := Register(p, caller, true);
    var h := s1.handle.value;
    var rec := Fresh(caller, h, false);
    var a := s1.state.(excluded := p.excluded + [rec.(active := true)]);
    assert a.excluded[|p.excluded|].handle == h;
    var s3 := Idle(a, h, caller, allocOk);
    FlagOfLast(p.excluded, rec.(active := true), s3.state.excluded, false);
    AppendedDecides(p.excluded, rec, caller.files);
    RemoveLast(p.excluded, rec);
  }

  /** The state `active` leaves after a successful registration is the
      registered state with the new record marked active. */
  lemma {:induction false} ActiveAfterRegister(p: Processor, caller: Caller, allocOk: bool)
    requires Valid(p)
    ensures var s1 := Register(p, caller, true);
            Active(s1.state, s1.handle.value, caller, allocOk).state
              == s1.state.(excluded := p.excluded + [Fresh(caller, s1.handle.value, true)])
  {
    RegisterThenMark(p, caller, allocOk, true);
  }

  /** The client's bracketing protocol as one chain, for an identity with no
      record: register, then `active` lets the caller's operations through,
      `idle` no longer does, and after `deregister` the registry is as before
      and the caller is again not excluded. */
  lemma {:induction false} BracketProtocol(p: Processor, caller: Caller, report: Report, alloc1: bool, alloc2: bool)
    requires Valid(p)
    requires Unclaimed(p.excluded, caller.files)
    ensures var s1 := Register(p, caller, true);
            var h := s1.handle.value;
            var s2 := Active(s1.state, h, caller, alloc1);
            var s3 := Idle(s2.state, h, caller, alloc2);
            var s4 := Deregister(s3.state, h);
            && s2.handle == Some(h)
            && ExamineFile(s2.state, caller, report).recommendedAction == Allow
            && ExamineFilesystem(s2.state, caller, report).recommendedAction == Allow
            && s3.handle == Some(h)
            && ExamineFile(s3.state, caller, report) == report
            && ExamineFilesystem(s3.state, caller, report) == report
            && s4.excluded == p.excluded
            && ExamineFile(s4, caller, report) == report
            && ExamineFilesystem(s4, caller, report) == report
  {
    ActiveAfterRegister(p, caller, alloc1);
    BracketActive(p, caller, report, alloc1);
    BracketIdle(p, caller, report, alloc2);
  }

  /** `registerProcess` does not look for an existing record of the caller,
      so a second registration adds a second record of the same identity;
      marking the second one active then does NOT exclude the caller, since
      only the first record of an identity is consulted. */
  lemma {:induction false} DuplicateRegistrationShadows(p: Processor, caller: Caller, report: Report)
    requires Valid(p)
    requires Unclaimed(p.excluded, caller.files)
    ensures var s1 := Register(p, caller, true);
            var s2 := Register(s1.state, caller, true);
            var s3 := Active(s2.state, s2.handle.value, caller, true);
            && s1.handle != s2.handle
            && |s3.state.excluded| == |p.excluded| + 2
            && s3.state.excluded[|p.excluded|].unique == caller.files
            && s3.state.excluded[|p.excluded| + 1].unique == caller.files
            && ExamineFile(s3.state, caller, report) == report
  {
    var s1 := Register(p, caller, true);
    var h1 := s1.handle.value;
    var s2 := Register(s1.state, caller, true);
    var h2 := s2.handle.value;
    var first := Fresh(caller, h1, false);
    assert s1.state.excluded[|p.excluded|].handle == h1;
    assert h1 != h2;
    var s3 := Active(s2.state, h2, caller, true);
    assert s2.state.excluded[|p.excluded| + 1].handle == h2;
    var reg := s3.state.excluded;
    assert reg[|p.excluded|] == first by {
      assert s2.state.excluded[|p.excluded|] == first;
    }
    assert NoneBefore(reg, caller.files, |p.excluded|) by {
      forall j | 0 <= j < |p.excluded| ensures reg[j].unique != caller.files {
        assert s2.state.excluded[j] == p.excluded[j];
        assert reg[j].unique == s2.state.excluded[j].unique;
      }
    }
  }

  /** The interception callbacks give the same answer whether the
      processor is enabled or not. */
  lemma ExamineIgnoresEnabled(p: Processor, caller: Caller, report: Report)
    ensures ExamineFile(Disable(p), caller, report) == ExamineFile(Enable(p), caller, report)
    ensures ExamineFilesystem(Disable(p), caller, report) == ExamineFilesystem(Enable(p), caller, report)
  {
  }

  /** `enable` and `disable` are idempotent. */
  lemma ToggleIdempotent(p: Processor)
    ensures Enable(Enable(p)) == Enable(p)
    ensures Disable(Disable(p)) == Disable(p)
  {
  }

  /** `setConfig("status", "disable")` then `config("status")` reads
      `disabled`; likewise for `enable`; an unknown name changes no value. */
  lemma SetConfigRoundTrip(p: Processor, name: string, value: string)
    requires Consistent(p)
    ensures Config(SetConfig(p, StatusKey, ActionDisable), StatusKey) == Some(ValueDisabled)
    ensures Config(SetConfig(p, StatusKey, ActionEnable), StatusKey) == Some(ValueEnabled)
    ensures name != StatusKey ==> forall n :: Config(SetConfig(p, name, value), n) == Config(p, n)
  {
  }

  /** How a C call ends: it returns, or it writes through a null pointer. */
  datatype CStep = Returned(step: Step) | NullDereference

  /** What `active` and `idle` do as written: when the handle is not a
      member and the implicit `registerProcess` fails to allocate, the null
      handle it returns is dereferenced to set the flag. */
  function MarkAsWritten(p: Processor, h: Handle, caller: Caller, allocOk: bool, flag: bool): (r: CStep)
    ensures r.NullDereference? <==> !IsMember(p.excluded, h) && !allocOk
    ensures r.Returned? ==> r.step.handle.Some? && FlagIs(r.step.state.excluded, r.step.handle.value, flag)
  {
    if Find(p.excluded, h) then Returned(Mark(p, h, caller, allocOk, flag))
    else
      var s := Register(p, caller, allocOk);
      if s.handle.None? then NullDereference
      else Returned(Mark(p, h, caller, allocOk, flag))
  }

  /** A concrete call that reaches the null dereference: `active` on a new
      processor with a stale handle while allocation fails. The corrected
      `Mark` reports the failure and leaves the processor unchanged. */
  lemma {:induction false} ActiveOnFailedAllocation()
    ensures MarkAsWritten(Template, 7, Caller(1, 100, 101), false, true).NullDereference?
    ensures Active(Template, 7, Caller(1, 100, 101), false) == Step(Template, None)
  {
    assert !IsMember(Template.excluded, 7);
  }
}
