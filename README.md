# fscrypt key cache and the generic idle loop, in Dafny

This project models two independent pieces of Linux kernel logic and proves properties of them.

1. **The fscrypt per-inode key cache** (`fs/crypto/keyinfo.c`). The master key of an encrypted inode is
   looked up in the kernel keyring under `prefix + hex(descriptor)`. The key is checked: its type must be
   "logon", its payload must be a `struct fscrypt_key`, and it must carry the expected key size. From it
   the per-inode raw key is derived with AES-128-ECB, keyed by the inode's nonce. A cipher transform is
   keyed with that raw key. The resulting `struct fscrypt_info` record is published in the inode's
   `i_crypt_info` slot with a compare-and-swap. Classes model the mutable objects:
   - the inode and its slot (`KeyInfoTypes.Inode`);
   - the record (`KeyInfoTypes.CryptInfo`);
   - keyring keys, with their reference count and payload read-lock (`Keyring.Key`);
   - cipher transforms and the allocator that counts them (`CryptoApi.Tfm`, `CryptoApi.Crypto`);
   - the completion of an asynchronous derivation (`KeyDerivation.Completion`).

   The goto-based control flow becomes methods that stop at the first failure. The `retry` label becomes
   a `while` loop, and the account of transforms and key references is carried across its passes. The
   secret buffers are arrays; the raw-key buffer of each pass is proved zero before the compare-and-swap
   and on every exit.

2. **The generic idle loop** (`kernel/sched/idle.c`). `IdlePoll.PollControl` holds the state shared by
   all CPUs:
   - the global and per-CPU force-poll counters;
   - the once-only warning sites.

   `IdleLoop.IdleCpu` is one CPU running `cpu_startup_entry` and `cpu_idle_loop`. Each method there is
   proved equal to a specification function over `IdleLoop.State`. `Env` supplies what the hardware and
   the scheduler report at each test. The hooks the loop calls are recorded as a trace of `Event`s, and
   the lemmas state the order of that trace.

The files are:
- `constants.dfy`: errno values and the fscrypt constants of `fscrypt_private.h`, which is not part of
  this model;
- `key_description.dfy`: the lookup description;
- `keyring.dfy`: the key-retention service as keyinfo.c uses it;
- `crypto_api.dfy`: the asynchronous block-cipher interface, with an opaque backend;
- `key_derivation.dfy`: `derive_key_aes` and its completion;
- `keyinfo_types.dfy`: the records;
- `keyinfo.dfy`: the key functions;
- `idle_poll.dfy`: the idle-poll controller;
- `idle_loop.dfy`: the idle loop.

Where a description of the intended behaviour disagrees with the code, the model follows the code:
- **Master-key size.** The size check compares the embedded key size with `FS_AES_256_XTS_KEY_SIZE`, which
  is 64. That 64-byte raw key is what `derive_key_aes` encrypts. The model does not use 32 here.
- **Counters.** The force-poll counters are not clamped and may go negative, which is reported but
  allowed.
- **Warnings.** `WARN_ON_ONCE` reports a call site the first time its condition holds, and never again.
  It does not report every occurrence.

`fs/crypto/keyinfo.c` contains unresolved merge-conflict markers (lines 165-171, 195-200, 240-256,
280-287) and does not compile as written. The model takes the union of both sides:
- `raw_key` is a `kmalloc`ed `FS_MAX_KEY_SIZE` buffer, and its allocation may fail with `-ENOMEM`;
- the faked context of an unencrypted inode in dummy mode has format V1;
- in dummy mode the raw key is 64 bytes of 0x42 and the keyring is not consulted;
- the setkey length is `fscrypt_key_size(mode)`.

`kernel/sched/idle.c:110` lacks a closing parenthesis. It is modelled as the evident
`if (cpu_is_offline(cpu)) { ... }`.

## Model

| member | source | states |
|---|---|---|
| KeyDescription.Hex | fs/crypto/keyinfo.c:102-104 | `%*phN` gives two lowercase hexadecimal digits per descriptor byte |
| KeyDescription.UnhexHex | fs/crypto/keyinfo.c:102-104 | the hexadecimal encoding of the descriptor reads back to the descriptor |
| KeyDescription.DescriptionShape | fs/crypto/keyinfo.c:88-105 | the description has length strlen(prefix) + 16, starts with the prefix, and its hex digits decode to the descriptor |
| KeyDescription.BuildDescription | fs/crypto/keyinfo.c:97-105 | the filled buffer has full_key_len bytes: the prefix, then the hex digits of the descriptor, then NUL at index full_key_len - 1 |
| Keyring.KeyFlagged | fs/crypto/keyinfo.c:328-332 | a key is INVALIDATED, REVOKED or DEAD exactly when key_validate fails for a reason other than expiry |
| Keyring.SearchResult | fs/crypto/keyinfo.c:107-110 | the search returns a key only if key_validate accepts it, and reports the reason of a key it rejects |
| Keyring.KeyCheck | fs/crypto/keyinfo.c:112-135 | 0 exactly for a logon key whose payload is a struct fscrypt_key holding a 64-byte key; a wrong payload length is the one -EINVAL, every other refusal -ENOKEY |
| Keyring.KeyPut | fs/crypto/keyinfo.c:144 | key_put drops exactly one reference |
| Keyring.RequestKey | fs/crypto/keyinfo.c:107-110 | a description not in the keyring gives -ENOKEY; a filed key that key_validate rejects gives that reason, and a usable one its own search error, with no reference taken; otherwise the key comes back with one more reference; read-locks are untouched |
| CryptoApi.Crypto.AllocAblkcipher | fs/crypto/keyinfo.c:270-277 | a transform is allocated and counted, or the backend's error is returned and nothing is allocated |
| CryptoApi.Crypto.SetKey | fs/crypto/keyinfo.c:283-289 | setkey returns the backend's status and installs the key only on success |
| CryptoApi.Crypto.FreeAblkcipher | fs/crypto/keyinfo.c:75-76 | a live transform is freed and the live count drops by one |
| CryptoApi.Crypto.AllocRequest | fs/crypto/keyinfo.c:50-54 | a request is allocated and counted, or the allocation fails and nothing changes |
| CryptoApi.Crypto.FreeRequest | fs/crypto/keyinfo.c:73-74 | freeing a request drops the live count by one |
| KeyDerivation.EcbSplit | fs/crypto/keyinfo.c:63-67 | ECB has no chaining: encrypting two aligned pieces gives the two encryptions side by side |
| KeyDerivation.EcbBlock | fs/crypto/keyinfo.c:63-67 | block i of the derived key is the AES encryption of block i of the master key alone |
| KeyDerivation.FinalStatus | fs/crypto/keyinfo.c:15-24 | the status the completion ends with is the first callback code that is not -EINPROGRESS |
| KeyDerivation.DeriveCryptComplete | fs/crypto/keyinfo.c:15-24 | -EINPROGRESS neither stores a result nor signals; any other code is stored and signals the completion |
| KeyDerivation.WaitForCompletion | fs/crypto/keyinfo.c:68-71 | waiting through the callbacks returns with the completion signalled and holding FinalStatus of them |
| KeyDerivation.FirstFinalIsFinalStatus | fs/crypto/keyinfo.c:68-71 | the callback that first signals the completion carries FinalStatus |
| KeyDerivation.DeriveKeyAes | fs/crypto/keyinfo.c:34-78 | the status is DeriveResult (the allocation, setkey or encryption status, or the completion's status for -EINPROGRESS/-EBUSY), or -ENOMEM when the request cannot be allocated; the transform and request are freed on every exit; on success the output is the ECB encryption of the source key, and on failure the output is untouched |
| KeyInfoTypes.CryptInfo.FromContext | fs/crypto/keyinfo.c:209-219 | a new record copies flags, both modes and the descriptor from the context, and holds no transform and no key |
| KeyInfoTypes.Inode.Cmpxchg | fs/crypto/keyinfo.c:293 | the slot is replaced only if it holds the expected record; the old value is returned |
| KeyInfo.ChooseContext | fs/crypto/keyinfo.c:190-206 | a full read is used; a failed read is replaced by the dummy context only in dummy mode for an unencrypted inode, and otherwise returned; a short read gives -EINVAL |
| KeyInfo.SelectMode | fs/crypto/keyinfo.c:220-225 | regular files use the contents mode, directories and symlinks the file-name mode, and any other kind hits BUG() |
| KeyInfo.CipherName | fs/crypto/keyinfo.c:227-239 | XTS mode uses "xts(aes)", CTS mode "cts(cbc(aes))"; every other mode has no cipher (the -ENOKEY default) |
| KeyInfo.KeySize | fs/crypto/keyinfo.c:283 | the setkey length is 64 for XTS and 32 for CTS; it is positive exactly for the modes that have a cipher, and fits the raw-key buffer |
| KeyInfo.PrefixFallback | fs/crypto/keyinfo.c:258-269 | the second prefix is needed only when the first lookup failed; if both fail, -ENOKEY from the second wins over the first error, and otherwise the first error stands |
| KeyInfo.ExitStatus | fs/crypto/keyinfo.c:299-301 | at the error exit -ENOKEY becomes 0 and every other code is returned unchanged, so the result is never -ENOKEY |
| KeyInfo.NoKeyIsSoft | fs/crypto/keyinfo.c:258-301 | a pass of a non-dummy inode whose master key is filed under neither prefix caches nothing and returns 0, unless memory ran out |
| KeyInfo.NoKeyOnlyFromContext | fs/crypto/keyinfo.c:190-301 | a pass returns -ENOKEY only when get_context itself returned -ENOKEY |
| KeyInfo.DefaultKeyPublishes | fs/crypto/keyinfo.c:258-297 | when the key under the default prefix validates and the allocations and cipher setup succeed, the pass publishes its record or loses it to a racer |
| KeyInfo.ValidateUserKey | fs/crypto/keyinfo.c:80-146 | the result is -ENOMEM or the Verdict for the description (-ENOKEY if absent, then the first failing key check, then the derivation status). On success ci_keyring_key holds the found key with one extra reference and the raw key is derived from its master key. On failure ci_keyring_key and the raw key are untouched and every reference count is as before. No read-lock stays held |
| KeyInfo.CheckAndDerive | fs/crypto/keyinfo.c:112-137 | checks the type (-ENOKEY), payload length (-EINVAL) and key size (-ENOKEY) in that order, then derives; the read-lock count is as before on every path |
| KeyInfo.PutCryptInfo | fs/crypto/keyinfo.c:148-157 | NULL is a no-op; otherwise the keyring reference is dropped, the transform freed and the record freed |
| KeyInfo.PutEncryptionInfo | fs/crypto/keyinfo.c:307-321 | the record is destroyed and the slot cleared exactly when the slot still holds it; otherwise nothing changes, so a repeated call is a no-op |
| KeyInfo.Kzfree | fs/crypto/keyinfo.c:291-292 | the buffer is all zeros afterwards |
| KeyInfo.ResolveRawKey | fs/crypto/keyinfo.c:242-269 | dummy mode gives the 0x42 key without the keyring; otherwise the default prefix is tried, then the filesystem prefix only if the first failed and a prefix exists; the combined status is PrefixFallback of the two; success leaves the key found under one of the prefixes with its raw key derived |
| KeyInfo.SetupCipher | fs/crypto/keyinfo.c:270-289 | the status is the allocation error of the mode's cipher, else the setkey status for the first keySize bytes of the raw key; an allocated transform stays in the record and is counted; on success it holds that key |
| KeyInfo.BuildKey | fs/crypto/keyinfo.c:227-289 | an unknown mode gives -ENOKEY and -ENOMEM a missing raw-key buffer; otherwise the status is PrefixFallback of the two lookups when that failed, else the setup status of the resolved key; success means the transform is keyed with the resolved key; the record holds a keyring key only when one validated |
| KeyInfo.CreateCryptInfo | fs/crypto/keyinfo.c:190-305 | the pass ends as PassOutcome says: the context error, -ENOMEM for the record, BUG only for other inode kinds, 0 for an unknown mode, -ENOMEM for the raw-key buffer, otherwise the exit status of the keying or a publish; a record is published only for a resolved key and holds the inode's context, mode and key; on every other exit the transform and key counts are as before; every key that existed before the pass gains a reference only as the key of the record published; the raw key is zero |
| KeyInfo.KeyAndPublish | fs/crypto/keyinfo.c:227-305 | a record whose keying status is 0 is published or lost to a racer and destroyed; otherwise the pass exits with ExitStatus of that status, the record gone and its references dropped |
| KeyInfo.KeyRecord | fs/crypto/keyinfo.c:227-304 | the status is the keying status of BuildKey; on failure the record is destroyed, its references are dropped and the raw key is zero; on success the record is usable and keyed |
| KeyInfo.WipeAndPublish | fs/crypto/keyinfo.c:291-297 | the raw key is zeroed, and only then is Publish called, which demands a zeroed raw key; the compare-and-swap wins exactly when no racer published first |
| KeyInfo.DiscardRecord | fs/crypto/keyinfo.c:299-304 | the record is destroyed and the raw key zeroed |
| KeyInfo.Publish | fs/crypto/keyinfo.c:293-297 | reached only with the raw key zeroed; installed iff the slot was NULL; otherwise the new record is destroyed and the racer's stays |
| KeyInfo.GetCryptInfoAttempt | fs/crypto/keyinfo.c:180-305 | a cached record is kept unchanged iff it has no key or its key validates, and is otherwise destroyed with its key reference dropped; an empty slot is filled from NULL only, with a record built from the inode, and the pass ends as PassOutcome says; the transform and key counts move only by what a published or dropped record holds: every key that existed before the pass loses a reference only as the dropped record's key and gains one only as the published record's, with its read-lock count unchanged; no record changes the key it points to; a destroyed record stays destroyed |
| KeyInfo.RaceLostKept | fs/crypto/keyinfo.c:293-295 | a pass that loses the race leaves the racer in the slot and the account unchanged for the next pass |
| KeyInfo.DroppedKept | fs/crypto/keyinfo.c:182-187 | a pass that drops an invalidated record adds it, with the key it held when the pass began, to those dropped, which stay distinct and destroyed, with one transform fewer |
| KeyInfo.FinalPassKept | fs/crypto/keyinfo.c:180-304 | the pass that returns completes the account of the whole call: the entry record, if not good, is the first dropped, with the key it held on entry; the records dropped are distinct and destroyed; the live transforms are those on entry less what the dropped records held plus a published record's |
| KeyInfo.RetryPass | fs/crypto/keyinfo.c:180-305 | a pass that goes back to the retry label keeps the account, with the next racer or the dropped record and its key added; the pass that returns ends as PassOutcome says and leaves the account of the call; no racer changes its key; every key's references move only by the record dropped and the record published |
| KeyInfo.RetryLoop | fs/crypto/keyinfo.c:180-305 | a good cached record is returned with nothing changed; otherwise the last pass is a racer's good record or ends as PassOutcome says; the records dropped are the entry record first, if it was not good, and otherwise racers, none twice, each destroyed with the key it held on entry; the live transforms are those on entry less what the dropped records held, plus what a published record holds; every key that existed on entry has its references less one per dropped record that held it, plus one if a published record holds it, and its read-lock count unchanged |
| KeyInfo.GetCryptInfoRetrying | fs/crypto/keyinfo.c:180-305 | from the retry label on, the call ends as Fetched says with fscrypt_initialize succeeded and get_context supplied, and every key that existed at the start has its references less one per dropped record that held it, plus one if the published record holds it |
| KeyInfo.GetCryptInfo | fs/crypto/keyinfo.c:159-305 | initialization errors and a missing get_context are returned without touching the slot; a good cached record gives 0 with nothing changed; a get_context error is returned as it is, and -ENOKEY only as that error; a nonzero return leaves the slot empty; a record this call publishes is built from the inode's context and key; every record dropped was destroyed, none twice, with the key it held at the start; live transforms are those at the start less one per dropped record plus one for a published record; every key that existed at the start, filed in the keyring or not, has its references less one per dropped record that held it, plus one if the published record holds it |
| KeyInfo.LastPassCodes | fs/crypto/keyinfo.c:190-301 | the code the call returns is get_context's error when the context cannot be used, and is -ENOKEY only as that error |
| KeyInfo.GetEncryptionInfo | fs/crypto/keyinfo.c:324-335 | a cached record whose key is not INVALIDATED, REVOKED or DEAD gives 0 with nothing changed; otherwise the outcome and the account are fscrypt_get_crypt_info's, with a flagged record dropped; in both cases every key that existed at the start has its references less one per dropped record that held it, plus one if a published record holds it |
| IdlePoll.Warn | kernel/sched/idle.c:26 | WARN_ON_ONCE reports a site the first time its condition holds and never again |
| IdlePoll.PollBranch | kernel/sched/idle.c:131-133 | poll iff a counter is nonzero (negative included) or the broadcast expired |
| IdlePoll.PollControl.constructor | kernel/sched/idle.c:18-33 | both counters start at zero on every CPU, with no warning |
| IdlePoll.PollControl.CpuIdlePollCtrl | kernel/sched/idle.c:20-31 | the global counter changes by exactly ±1, unclamped; going negative is reported once |
| IdlePoll.PollControl.PerCpuIdlePollCtrl | kernel/sched/idle.c:35-49 | only that CPU's counter changes, by ±1; the global counter and the other CPUs' are unchanged; going negative is reported once |
| IdlePoll.PollControl.PollSetup | kernel/sched/idle.c:52-56 | "nohlt" sets the global counter to 1 and returns 1 |
| IdlePoll.PollControl.NopollSetup | kernel/sched/idle.c:59-63 | "hlt" sets the global counter to 0 and returns 1 |
| IdleLoop.SpinCount | kernel/sched/idle.c:72-74 | the spin stops at the first need-resched test that succeeds, or at once when neither counter forces polling |
| IdleLoop.ArchIdleEffect | kernel/sched/idle.c:85-89 | the weak arch_cpu_idle sets the global counter to 1 and enables interrupts |
| IdleLoop.IterationShape | kernel/sched/idle.c:107-151 | an offline pass ends with the plug-off flag and the dead hook; a live pass is arch_cpu_idle_enter, then one of poll, arch_cpu_idle or nothing, then arch_cpu_idle_exit |
| IdleLoop.ArchIdleExactly | kernel/sched/idle.c:131-148 | arch_cpu_idle runs iff the poll test fails and clear-polling-and-test sees no need-resched |
| IdleLoop.IterationLeavesIrqsOn | kernel/sched/idle.c:134-149 | after a live pass interrupts are on, or an architecture hook left them off and that is reported; polling is set again after a deep pass |
| IdleLoop.WeakDefaultForcesPoll | kernel/sched/idle.c:85-89 | a pass that ran the weak arch_cpu_idle leaves the global counter at 1 |
| IdleLoop.ForcedIterationPolls | kernel/sched/idle.c:131-134 | with the global counter nonzero a pass polls and leaves both counters as they were |
| IdleLoop.ForcedKeepsCounter | kernel/sched/idle.c:106-152 | while the global counter is nonzero the inner loop leaves it unchanged |
| IdleLoop.ForcedNeverIdlesDeep | kernel/sched/idle.c:106-152 | while the global counter is nonzero the inner loop never calls arch_cpu_idle, so after the weak hook has run every later pass polls |
| IdleLoop.RunInnerEnds | kernel/sched/idle.c:106-152 | the inner loop only appends to the trace, and a CPU that dies ends with the plug-off flag and the dead hook |
| IdleLoop.PeriodShape | kernel/sched/idle.c:103-155 | a round starts with tick_nohz_idle_enter; unless the CPU died, it ends with tick_nohz_idle_exit followed by schedule_preempt_disabled |
| IdleLoop.IdleCpu.Spin | kernel/sched/idle.c:72-74 | the loop counts the cpu_relax() calls of SpinCount |
| IdleLoop.IdleCpu.CpuIdlePoll | kernel/sched/idle.c:67-78 | interrupts on, the spin recorded, returns 1 |
| IdleLoop.IdleCpu.ArchCpuIdle | kernel/sched/idle.c:85-89 | the CPU and the controller change as ArchIdleEffect says |
| IdleLoop.IdleCpu.InnerIteration | kernel/sched/idle.c:107-151 | the CPU and the controller change as one Iteration says |
| IdleLoop.IdleCpu.IdlePeriod | kernel/sched/idle.c:104-154 | the nested loops change the CPU and controller as Period says |
| IdleLoop.IdleCpu.CpuStartupEntry | kernel/sched/idle.c:158-179 | polling is set, the prepare hook runs, only this CPU's counter is zeroed, then one round of the loop runs |

## Left out

- Cipher algorithms: AES, XTS and CBC-CTS are opaque deterministic functions of a `Backend`. The backend
  also decides whether each allocation and setkey succeeds and how an encrypt request completes.
- Memory allocation: `kmalloc`, `kmem_cache_alloc` and request allocation may fail at any call. The model
  makes that choice nondeterministically; `kfree` and `kmem_cache_free` only mark objects as freed.
- Keyring internals: `key_validate` reads flags that stay fixed for the duration of one call. The
  semaphore is a reader count.
- RequestKey: `request_key` is a lookup in a map from description to key; what it reports for a filed
  key is fixed per key (the validation reason or `searchError`), so a retry sees the same answer. Key
  construction, negative keys, quotas and keyring permissions are not modelled.
- DeriveKeyAes: the output buffer is taken as untouched when the derivation fails; an asynchronous
  encryption that fails part-way might already have written some of it.
- `fscrypt_initialize` and `s_cop->get_context`: their results are parameters (`initStatus`,
  `hasGetContext`, `read`). `is_encrypted` and `fscrypt_dummy_context_enabled` are fields of the inode.
- Concurrency in keyinfo.c: other callers are modelled through `racers`, the records they publish, in
  order, just before this caller's compare-and-swap attempts. No other interleaving is modelled.
  `ACCESS_ONCE` and the atomicity of `cmpxchg` are taken as given.
- GetCryptInfo: termination of the `retry` loop rests on the finite `racers` sequence. Each lost race
  uses up one racer.
- KeyInfo.RetryLoop: the objects it may change are passed as a ghost set of objects, not as the exact
  records and keys.
- PutCryptInfo: it does not state that the keyring reference is dropped before the transform is freed.
  Only the end state is stated.
- The `printk_once`/`printk` messages, and the transform flag calls (setting `CRYPTO_TFM_REQ_WEAK_KEY`,
  clearing flags), which do not change any outcome in this model.
- Integer width: counters and errno values are unbounded integers. 32-bit wrap-around of the
  force-poll counters, reference counts and live counts is not modelled.
- Interrupt hardware, RCU idle enter/exit, tracepoints, critical timings, `check_pgt_cache`, `rmb`/`mb`,
  the MT load-balance profiler, the stack canary and the tick internals. They become events in the trace,
  or nothing.
- The infinite outer `while (1)`: IdleCpu.CpuStartupEntry runs startup and the first round of the loop
  only. IdleCpu.IdlePeriod is one round and can be called repeatedly.
- IdleLoop.Iteration: arch_cpu_idle_dead is treated as terminal. Once it is entered, the CPU is `dead`
  and no further pass runs, although the weak default of that hook returns.
- Environment assumptions for termination: every poll spin eventually sees need-resched (`Fair`), and
  some pass of the inner loop sees need-resched or finds the CPU offline (`Ends`).
- IdleCpu.CpuIdlePoll: the spin re-tests counters that no other CPU changes while it spins. Counter
  changes made by other CPUs happen only between calls.
