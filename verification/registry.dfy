/** The exclusion registry: the ordered list of exclusion records that the
    processor keeps in `mExcluded`. Every operation here is a pure function on
    the list; the read-copy-update discipline that makes the C list safe for
    concurrent readers is not modelled, each operation is taken as atomic. */
module Registry {

  /** The identity of one record. In the C code a handle is the record's
      address and handles are compared by pointer identity; here each record
      is given a fresh number when it is created. */
  type Handle = nat

  /** The caller's file-table identity, `current->files`: all threads sharing
      one file table share it. */
  type Identity = nat

  /** One `ProcessExcluded` record. `processID` and `threadID` are kept for
      diagnostics only; `active` says whether the owner wants interception
      bypassed right now. */
  datatype Record = Record(handle: Handle, unique: Identity, processID: nat, threadID: nat, active: bool)

  /** Reference definition of membership: some record of the list is the
      one with handle `h`. */
  ghost predicate IsMember(reg: seq<Record>, h: Handle) {
    exists i :: 0 <= i < |reg| && reg[i].handle == h
  }

  /** No record before position `n` belongs to identity `id`. */
  ghost predicate NoneBefore(reg: seq<Record>, id: Identity, n: int)
    requires n <= |reg|
  {
    forall j :: 0 <= j < n ==> reg[j].unique != id
  }

  /** No record of the list belongs to identity `id`. */
  ghost predicate Unclaimed(reg: seq<Record>, id: Identity) {
    NoneBefore(reg, id, |reg|)
  }

  /** Reference definition of exclusion: the FIRST record belonging to `id`
      exists and is active. Later records of the same identity are shadowed. */
  ghost predicate Excluded(reg: seq<Record>, id: Identity) {
    exists i :: 0 <= i < |reg| && reg[i].unique == id && reg[i].active && NoneBefore(reg, id, i)
  }

  /** Every record has its own handle. The C list links each node once, so
      two positions never hold the same record. */
  ghost predicate DistinctHandles(reg: seq<Record>) {
    forall i, j :: 0 <= i < j < |reg| ==> reg[i].handle != reg[j].handle
  }

  /** `after` is `before` with the `active` flag of the record(s) with handle
      `h` set to `flag`, and nothing else changed. */
  ghost predicate OnlyFlagChanged(before: seq<Record>, after: seq<Record>, h: Handle, flag: bool) {
    && |after| == |before|
    && forall i :: 0 <= i < |before| ==>
         after[i] == (if before[i].handle == h then before[i].(active := flag) else before[i])
  }

  /** Every record with handle `h` carries flag `flag`. */
  ghost predicate FlagIs(reg: seq<Record>, h: Handle, flag: bool) {
    forall i :: 0 <= i < |reg| && reg[i].handle == h ==> reg[i].active == flag
  }

  /** `findProcessExcluded`: walk the list comparing handles. */
  function Find(reg: seq<Record>, h: Handle): (found: bool)
    ensures found <==> IsMember(reg, h)
  {
    if |reg| == 0 then false
    else if reg[0].handle == h then true
    else
      var found := Find(reg[1..], h);
      assert found ==> IsMember(reg, h) by {
        if found {
          var i :| 0 <= i < |reg[1..]| && reg[1..][i].handle == h;
          assert reg[i + 1].handle == h;
        }
      }
      found
  }

  /** `checkProcessExcluded`: walk the list and return the `active` flag of
      the first record whose identity is `id`, or false when there is none. */
  function Check(reg: seq<Record>, id: Identity): (excluded: bool)
    ensures excluded <==> Excluded(reg, id)
    ensures Unclaimed(reg, id) ==> !excluded
  {
    if |reg| == 0 then false
    else if reg[0].unique == id then
      assert NoneBefore(reg, id, 0);
      reg[0].active
    else
      var excluded := Check(reg[1..], id);
      assert excluded ==> Excluded(reg, id) by {
        if excluded {
          var i :| 0 <= i < |reg[1..]| && reg[1..][i].unique == id && reg[1..][i].active
                   && NoneBefore(reg[1..], id, i);
          assert NoneBefore(reg, id, i + 1) by {
            forall j | 0 <= j < i + 1 ensures reg[j].unique != id {
              if j > 0 { assert reg[j] == reg[1..][j - 1]; }
            }
          }
        }
      }
      assert Excluded(reg, id) ==> excluded by {
        if Excluded(reg, id) {
          var i :| 0 <= i < |reg| && reg[i].unique == id && reg[i].active && NoneBefore(reg, id, i);
          assert i > 0;
          assert NoneBefore(reg[1..], id, i - 1);
          assert reg[1..][i - 1] == reg[i];
        }
      }
      excluded
  }

  /** Position of the record with handle `h`: the node `list_del` unlinks. */
  function IndexOf(reg: seq<Record>, h: Handle): (k: nat)
    requires IsMember(reg, h)
    ensures k < |reg| && reg[k].handle == h
    ensures forall j :: 0 <= j < k ==> reg[j].handle != h
  {
    if reg[0].handle == h then 0
    else
      assert IsMember(reg[1..], h) by {
        var i :| 0 <= i < |reg| && reg[i].handle == h;
        assert reg[1..][i - 1] == reg[i];
      }
      1 + IndexOf(reg[1..], h)
  }

  /** Past a head that is not `h`, membership is decided by the tail. */
  lemma MemberOfTail(reg: seq<Record>, h: Handle)
    requires |reg| > 0 && reg[0].handle != h
    ensures IsMember(reg, h) <==> IsMember(reg[1..], h)
  {
    if IsMember(reg[1..], h) {
      var i :| 0 <= i < |reg[1..]| && reg[1..][i].handle == h;
      assert reg[i + 1].handle == h;
    }
  }

  /** `rest` is `reg` with position `k` spliced out: the records before
      `k` and after it, in their order. */
  ghost predicate SplicedOut(reg: seq<Record>, rest: seq<Record>, k: int) {
    && 0 <= k < |reg|
    && |rest| == |reg| - 1
    && (forall i :: 0 <= i < k ==> rest[i] == reg[i])
    && (forall i :: k <= i < |rest| ==> rest[i] == reg[i + 1])
  }

  /** Unlink the record with handle `h`; a list without it is returned as is. */
  function Remove(reg: seq<Record>, h: Handle): (rest: seq<Record>)
    ensures !IsMember(reg, h) ==> rest == reg
    ensures IsMember(reg, h) ==> SplicedOut(reg, rest, IndexOf(reg, h))
  {
    if |reg| == 0 then []
    else if reg[0].handle == h then reg[1..]
    else
      var tail := Remove(reg[1..], h);
      var rest := [reg[0]] + tail;
      MemberOfTail(reg, h);
      assert !IsMember(reg, h) ==> rest == reg by {
        assert [reg[0]] + reg[1..] == reg;
      }
      assert IsMember(reg, h) ==> SplicedOut(reg, rest, IndexOf(reg, h)) by {
        if IsMember(reg, h) {
          var k := IndexOf(reg[1..], h);
          assert IndexOf(reg, h) == k + 1;
          forall i | 1 <= i < k + 1 ensures rest[i] == reg[i] {
            assert rest[i] == tail[i - 1] == reg[1..][i - 1];
          }
          forall i | k + 1 <= i < |rest| ensures rest[i] == reg[i + 1] {
            assert rest[i] == tail[i - 1] == reg[1..][i];
          }
        }
      }
      rest
  }

  /** Set the `active` flag of the record with handle `h`, in place. */
  function SetFlag(reg: seq<Record>, h: Handle, flag: bool): (upd: seq<Record>)
    ensures OnlyFlagChanged(reg, upd, h, flag)
  {
    if |reg| == 0 then []
    else
      var head := if reg[0].handle == h then reg[0].(active := flag) else reg[0];
      var tail := SetFlag(reg[1..], h, flag);
      assert forall i :: 1 <= i < |reg| ==> ([head] + tail)[i] == tail[i - 1];
      [head] + tail
  }

  /** After the update the record(s) with handle `h` carry the new flag and
      the set of handles in the list is the same. */
  lemma {:induction false} SetFlagEffect(reg: seq<Record>, h: Handle, flag: bool)
    ensures FlagIs(SetFlag(reg, h, flag), h, flag)
    ensures forall g :: IsMember(SetFlag(reg, h, flag), g) <==> IsMember(reg, g)
  {
    var upd := SetFlag(reg, h, flag);
    forall g ensures IsMember(upd, g) <==> IsMember(reg, g) {
      if IsMember(upd, g) {
        var i :| 0 <= i < |upd| && upd[i].handle == g;
        assert reg[i].handle == g;
      }
      if IsMember(reg, g) {
        var i :| 0 <= i < |reg| && reg[i].handle == g;
        assert upd[i].handle == g;
      }
    }
  }

  /** Splicing a record out of a list with distinct handles removes exactly
      that record's handle and keeps the others distinct. */
  lemma {:induction false} SpliceEffect(reg: seq<Record>, rest: seq<Record>, k: int)
    requires DistinctHandles(reg)
    requires SplicedOut(reg, rest, k)
    ensures DistinctHandles(rest)
    ensures forall g :: IsMember(rest, g) <==> IsMember(reg, g) && g != reg[k].handle
  {
    forall i, j | 0 <= i < j < |rest| ensures rest[i].handle != rest[j].handle {
      if j < k { assert rest[i] == reg[i] && rest[j] == reg[j]; }
      else if i < k { assert rest[i] == reg[i] && rest[j] == reg[j + 1]; }
      else { assert rest[i] == reg[i + 1] && rest[j] == reg[j + 1]; }
    }
    forall g | IsMember(rest, g) ensures IsMember(reg, g) && g != reg[k].handle {
      var i :| 0 <= i < |rest| && rest[i].handle == g;
      if i < k { assert rest[i] == reg[i]; } else { assert rest[i] == reg[i + 1]; }
    }
    forall g | IsMember(reg, g) && g != reg[k].handle ensures IsMember(rest, g) {
      var i :| 0 <= i < |reg| && reg[i].handle == g;
      if i < k { assert rest[i] == reg[i]; } else { assert i != k; assert rest[i - 1] == reg[i]; }
    }
  }

  /** With distinct handles, unlinking `h` leaves no record with that handle,
      keeps every other record, and keeps handles distinct. */
  lemma {:induction false} RemoveEffect(reg: seq<Record>, h: Handle)
    requires DistinctHandles(reg)
    ensures !IsMember(Remove(reg, h), h)
    ensures DistinctHandles(Remove(reg, h))
    ensures forall g :: g != h ==> (IsMember(Remove(reg, h), g) <==> IsMember(reg, g))
  {
    if IsMember(reg, h) {
      SpliceEffect(reg, Remove(reg, h), IndexOf(reg, h));
    }
  }
}
