# Process-exclusion processor, modelled in Dafny

This project models the process-exclusion processor of the TALPA filesystem
interceptor. The processor lets cooperating processes, such as a scanning
agent reading files it must not re-scan, bypass interception of their own
file opens and mounts.

The model has three parts:

- **The exclusion registry** (`registry.dfy`, module `Registry`). This is the
  ordered list `mExcluded` of `ProcessExcluded` records. Each record has a
  handle, a file-table identity `unique`, a `processID`, a `threadID` and an
  `active` flag. `Find` models `findProcessExcluded`, which compares handles.
  `Check` models `checkProcessExcluded`, which returns the flag of the first
  record of an identity. `Remove` models unlinking a node, and `SetFlag`
  models the in-place flag write.
- **The configuration table** (`configuration.dfy`, module `Configuration`).
  This holds the name/value table and the first-match `Lookup` that `config`
  and `setConfig` share, with the constants `status`, `enabled`, `disabled`,
  `enable`, `disable` and `ProcessExclusionProcessor`.
- **The processor** (`processor.dfy`, module `ProcessExclusion`). Its state is
  `Processor(excluded, nextHandle, enabled, status)`. Every entry point of the
  three interfaces is a pure transition on that state:
  - `New` and `Delete` cover the lifecycle.
  - `ExamineFile` and `ExamineFilesystem` are the interception callbacks.
  - `Register`, `Deregister`, `Active` and `Idle` are the excluder interface.
    `Mark` is the shared body of `Active` and `Idle`.
  - `Enable`, `Disable`, `IsEnabled`, `ConfigName`, `AllConfig`, `Config` and
    `SetConfig` are the configuration interface.

`properties.dfy` (module `ExclusionProperties`) relates operations to each
other. It covers the inverse pairs, the client's register / active / idle /
deregister protocol, the shadowing of duplicate registrations, idempotent
toggles and configuration round trips. It also holds the as-written model of
the one defect listed under Findings.

The C code takes several inputs from its execution environment. The model
passes them in explicitly:

- The caller's context (`current->files`, `current->tgid`, `current->pid`) is
  a `Caller` value.
- Every allocation is a boolean `allocOk` parameter.
- A record's address becomes a fresh number drawn from `nextHandle`.
- The evaluation report becomes a `Report` whose recommended action is either
  `Allow` or an opaque other action.

Three behaviours of the code are easy to misread:

- `examineFile` and `examineFilesystem` do not read `mEnabled`. A disabled
  processor still recommends Allow for an active record; see
  `ExamineIgnoresEnabled`.
- `registerProcess` does not check for an existing record of the same
  identity, so one identity can have several records. Only the first one is
  consulted; see `DuplicateRegistrationShadows`.
- `deregisterProcess` on an absent handle returns nothing at all. It reports
  no "already absent" result.

## Model

| member | source | states |
|---|---|---|
| Registry.Find | src/components/core/intercept_filters_impl/proc_excl/process_exclusion.c:157-173 | the list walk answers true exactly when some record carries the handle |
| Registry.Check | src/components/core/intercept_filters_impl/proc_excl/process_exclusion.c:175-192 | the result is true exactly when the first record of the identity exists and is active; false when the identity has no record |
| Registry.IndexOf | src/components/core/intercept_filters_impl/proc_excl/process_exclusion.c:254-261 | for a member handle, the position of the first node carrying it, which is the node that is unlinked |
| Registry.Remove | src/components/core/intercept_filters_impl/proc_excl/process_exclusion.c:254-262 | a non-member handle leaves the list as is; for a member, exactly its node is spliced out and the records before and after keep their order |
| Registry.RemoveEffect | src/components/core/intercept_filters_impl/proc_excl/process_exclusion.c:250-268 | with distinct handles, after the unlink the handle is no longer a member, every other handle keeps its membership and handles stay distinct |
| Registry.SpliceEffect | src/components/core/intercept_filters_impl/proc_excl/process_exclusion.c:261 | splicing one node out of a list of distinct handles removes exactly that node's handle |
| Registry.SetFlag | src/components/core/intercept_filters_impl/proc_excl/process_exclusion.c:278 | only the `active` flag of the record with the handle changes; length, order and every other record stay the same |
| Registry.SetFlagEffect | src/components/core/intercept_filters_impl/proc_excl/process_exclusion.c:270-296 | after the flag write the record carries the new flag and the set of member handles is unchanged |
| Configuration.Lookup | src/components/core/intercept_filters_impl/proc_excl/process_exclusion.c:347-371 | None exactly when no entry has the name; otherwise the value of the first entry with that name |
| Configuration.LookupFindsEveryEntry | src/components/core/intercept_filters_impl/proc_excl/process_exclusion.c:355-368 | in a table with distinct names, looking up any entry's name yields that entry's value |
| ProcessExclusion.New | src/components/core/intercept_filters_impl/proc_excl/process_exclusion.c:111-133 | None exactly when allocation fails; otherwise the registry is empty, the processor is enabled, `config("status")` is `enabled` and the state invariants hold |
| ProcessExclusion.Delete | src/components/core/intercept_filters_impl/proc_excl/process_exclusion.c:135-155 | teardown frees every record exactly once, in list order, and frees nothing that was not a member |
| ProcessExclusion.ExamineFile | src/components/core/intercept_filters_impl/proc_excl/process_exclusion.c:197-206 | the report recommends Allow when the caller's first record is active; otherwise the report is returned untouched |
| ProcessExclusion.ExamineFilesystem | src/components/core/intercept_filters_impl/proc_excl/process_exclusion.c:208-219 | the same decision for filesystem operations |
| ProcessExclusion.Register | src/components/core/intercept_filters_impl/proc_excl/process_exclusion.c:224-248 | on allocation failure nothing changes and no handle is returned; otherwise exactly one idle record with the caller's identity, pid and tid is appended at the tail under a handle that was not a member, and the invariant is kept |
| ProcessExclusion.Deregister | src/components/core/intercept_filters_impl/proc_excl/process_exclusion.c:250-268 | a non-member handle is a no-op; a member's node alone is spliced out with order kept, the handle is then not found, other handles keep their membership |
| ProcessExclusion.Mark | src/components/core/intercept_filters_impl/proc_excl/process_exclusion.c:270-296 | the implicit registration of a non-member handle and then the flag write, with allocation failure reported and the state left unchanged |
| ProcessExclusion.Active | src/components/core/intercept_filters_impl/proc_excl/process_exclusion.c:270-282 | the returned handle is a member that is active; a member handle is returned itself with only its flag changed; otherwise one new active record is appended and returned |
| ProcessExclusion.Idle | src/components/core/intercept_filters_impl/proc_excl/process_exclusion.c:284-296 | as Active with the flag false, including the implicit registration |
| ProcessExclusion.Enable | src/components/core/intercept_filters_impl/proc_excl/process_exclusion.c:303-314 | afterwards the processor is enabled; already enabled means no change; otherwise `config("status")` is `enabled`; the registry is untouched and `status` stays in step with `mEnabled` |
| ProcessExclusion.Disable | src/components/core/intercept_filters_impl/proc_excl/process_exclusion.c:316-327 | the mirror image of Enable with `disabled` |
| ProcessExclusion.AllConfig | src/components/core/intercept_filters_impl/proc_excl/process_exclusion.c:342-345 | the table has exactly one entry; looking up `status` in it yields the stored value, every other name yields None, and every entry is found by name with its own value |
| ProcessExclusion.Config | src/components/core/intercept_filters_impl/proc_excl/process_exclusion.c:347-371 | `status` yields the stored value and every other name yields None |
| ProcessExclusion.SetConfig | src/components/core/intercept_filters_impl/proc_excl/process_exclusion.c:373-413 | an unknown name changes nothing; `status`/`enable` is Enable, `status`/`disable` is Disable, any other value changes nothing; the registry is never touched |
| ProcessExclusion.SetFlagOfAppended | src/components/core/intercept_filters_impl/proc_excl/process_exclusion.c:275-278 | setting the flag of a freshly registered record is the same as appending it with that flag |
| ExclusionProperties.AppendedDecides | src/components/core/intercept_filters_impl/proc_excl/process_exclusion.c:175-192 | behind a list with no record of an identity, an appended record alone decides whether that identity is excluded |
| ExclusionProperties.FlagOfLast | src/components/core/intercept_filters_impl/proc_excl/process_exclusion.c:278 | a flag write on the freshly appended record changes only the last element |
| ExclusionProperties.RemoveLast | src/components/core/intercept_filters_impl/proc_excl/process_exclusion.c:243 | unlinking a freshly appended record gives back the list before it |
| ExclusionProperties.DeregisterUndoesRegister | src/components/core/intercept_filters_impl/proc_excl/process_exclusion.c:224-268 | deregistering the handle a successful registration returned restores the registry |
| ExclusionProperties.IdleUndoesActive | src/components/core/intercept_filters_impl/proc_excl/process_exclusion.c:270-296 | idle after active on an idle member restores the whole processor state |
| ExclusionProperties.RegisterThenMark | src/components/core/intercept_filters_impl/proc_excl/process_exclusion.c:224-296 | a flag write on the handle a successful registration returned yields the old list plus one record of the caller carrying that flag, under the same handle |
| ExclusionProperties.BracketActive | src/components/core/intercept_filters_impl/proc_excl/process_exclusion.c:197-282 | for an identity with no record, after register and active both callbacks recommend Allow |
| ExclusionProperties.BracketIdle | src/components/core/intercept_filters_impl/proc_excl/process_exclusion.c:197-296 | continuing from the registered active record, idle gives the same handle back and both callbacks leave the report alone; deregister then restores the registry the client started from |
| ExclusionProperties.ActiveAfterRegister | src/components/core/intercept_filters_impl/proc_excl/process_exclusion.c:224-282 | the whole state `active` leaves on a freshly registered handle is the registered state with that record marked active |
| ExclusionProperties.BracketProtocol | src/components/core/intercept_filters_impl/proc_excl/process_exclusion.c:197-296 | for an identity with no record, the chain register, active, idle, deregister: both callbacks recommend Allow after active, leave the report alone after idle, and after deregister the registry is as before and the report is left alone |
| ExclusionProperties.DuplicateRegistrationShadows | src/components/core/intercept_filters_impl/proc_excl/process_exclusion.c:175-247 | registering twice gives two records of one identity with distinct handles; activating the second does not exclude the caller |
| ExclusionProperties.ExamineIgnoresEnabled | src/components/core/intercept_filters_impl/proc_excl/process_exclusion.c:197-219 | both callbacks decide the same whether the processor is enabled or disabled |
| ExclusionProperties.ToggleIdempotent | src/components/core/intercept_filters_impl/proc_excl/process_exclusion.c:303-327 | enable twice is enable once; disable twice is disable once |
| ExclusionProperties.SetConfigRoundTrip | src/components/core/intercept_filters_impl/proc_excl/process_exclusion.c:347-413 | `setConfig("status","disable")` then `config("status")` reads `disabled`, and the same holds for `enable`; an unknown name leaves every config value as it was |
| ExclusionProperties.MarkAsWritten | src/components/core/intercept_filters_impl/proc_excl/process_exclusion.c:270-296 | as written, active/idle dereference a null handle exactly when the handle is not a member and allocation fails; otherwise the returned member carries the flag |
| ExclusionProperties.ActiveOnFailedAllocation | src/components/core/intercept_filters_impl/proc_excl/process_exclusion.c:272-278 | a concrete call that reaches the null dereference as written, which the corrected Active answers with no handle and an unchanged state |

`IsEnabled` (line 329-332), `ConfigName` (line 337-340) and the
identity-level `IsExcluded` are plain accessors. They carry no contract of
their own. Their behaviour is stated by the Enable, Disable and Examine rows.

## Left out

- Read-copy-update and mutex machinery: `talpa_rcu_*` and `mConfigSerialize`
  exist to handle concurrency and grace-period reclamation. Each operation is
  modelled as one atomic step, so snapshot consistency for concurrent readers
  is not modelled.
- `kmalloc` and `kfree`: allocation is only a success flag, and memory safety
  is not modelled.
- Address reuse: after `kfree` a later `kmalloc` can return the same address,
  so a stale handle could alias a new record. The model draws every handle
  fresh from `nextHandle`, so stale handles never alias.
- Logging (`dbg`, `info`, `err`) produces output only and is left out.
- `processParentPID` and `current->comm` appear only in log lines and are left
  out.
- The interface vtables, the `object` back-pointers and the template memcpy
  are C-style polymorphism wiring. They are modelled only through the initial
  state `Template`.
- `strcpy` into the fixed-size `mStateConfigData` buffers is not modelled.
  Values are unbounded strings.
- `setRecommendedAction` belongs to the report object, which is not part of
  this model. It is modelled as overwriting the recommended action.
- AllConfig: the C function returns the live `mConfig` array, so later
  `enable`/`disable` calls show through the pointer a caller already holds.
  The model returns a snapshot of the table at the time of the call.
- Enable: the C function always returns `true`. That constant return value is
  not modelled.
- Registry.SetFlag: the flag is written on every record with the handle, not
  on one node. Under the `Valid` invariant (distinct handles) there is exactly
  one such record, so this matches the code on every reachable state.
- tests/vc_inclusionproc.c drives the vetting-client device through a
  fork/exec integration test. It is process and device I/O with no processor
  logic, and is not part of this model.

## Findings

| source | as written | input that shows it | evidently intended | confidence | as-written member | corrected member |
|---|---|---|---|---|---|---|
| src/components/core/intercept_filters_impl/proc_excl/process_exclusion.c:272-278 | `active` (and `idle` at lines 286-292) calls `registerProcess` for a non-member handle and then writes `obj->active` without checking for a null return | a handle that is not a member, such as 7 on a new processor, while the record allocation fails | report the failed allocation by returning a null handle, leaving the registry unchanged | high; not executed | ExclusionProperties.MarkAsWritten | ProcessExclusion.Mark |
