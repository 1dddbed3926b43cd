# Clearance system calls of hw2.c

hw2.c adds four system calls to a Linux kernel. Each process (`task_struct`)
carries a three-bit `clearance` mask: bit 0 is *sword*, bit 1 *midnight*,
bit 2 *clamp*. The characters `'s'`, `'m'` and `'c'` name the three clearances.

- `sys_set_sec(sword, midnight, clamp)` is for root only. It replaces the
  caller's whole mask with the three arguments, each normalised to 0 or 1.
- `sys_get_sec(clr)` reads one bit of the caller's own mask.
- `sys_check_sec(pid, clr)` reads one bit of another process's mask. It
  answers only a caller that holds that bit itself.
- `sys_set_sec_branch(height, clr)` walks `height` steps up the parent chain,
  starting at the caller's parent. It ors the bit into every process it meets
  that lacks it, and returns how many it changed.

The model has three modules.

- `Clearance` (clearance.dfy) holds the errno values and the mask as a `bv3`.
  It also holds the character-to-clearance mapping the three `switch` blocks
  share, and the two mask operations the calls perform:
  - packing the normalised arguments;
  - or-ing in one bit.
- `Tasks` (tasks.dfy) holds the process table as a map from pid to
  (clearance, parent). It also holds the pure specification of the ancestor
  walk:
  - `Chain`/`Ancestors` are the processes visited;
  - `GrantAll`/`Propagate` give the table afterwards;
  - `Lacking`/`Flipped` give the processes counted;
  - lemmas about them.
- `Syscalls` (syscalls.dfy) holds the class `Kernel`, with the table and the
  caller's pid as fields.
  - `SetSec` and `SetSecBranch` are methods that update the table.
  - `GetSec` and `CheckSec` are functions that read it.
  - The loop of `sys_set_sec_branch` is the method `GrantToAncestors`, and
    its body is the method `VisitAncestor`. They keep the source's variables
    (`parent_task`, `updated_count`, `i`). They are proved against `GrantAll`
    over the chain through the loop invariant `WalkState`.

The table holds every task the calls can reach: the caller, the targets of
`sys_check_sec` and every task on a parent chain. Every parent link leads to a
task of the table. In Linux the chain ends at the idle task (pid 0), whose
parent is itself; `init` (pid 1) is a child of the idle task. The walk
therefore never leaves the table.

Which pids `sys_check_sec` can find is a separate field, `visible`. It holds
the pids that `find_vpid` resolves in the caller's namespace and on which
`kill_pid(..., 0, NULL)` succeeds (hw2.c:67-70). The second test, `pid_task`
(hw2.c:71-74), is membership in the table. A task reached by a parent link
need not be visible: the idle task is not, nor is an ancestor outside the
caller's namespace.

Two behaviours of hw2.c that the model keeps:

- `sys_check_sec` tests existence first (hw2.c:67-74), before the character
  (hw2.c:77-79) and before the caller's clearance (hw2.c:94-96). A caller that
  lacks the bit therefore still learns whether a pid exists: it gets -ESRCH
  for a missing pid and -EPERM for a present one.
- The loop at hw2.c:141-150 has no end-of-chain test: it always runs exactly
  `height` times. Once the walk reaches the idle task, it revisits it on every
  remaining step. The model visits exactly `height` processes, with repeats.
  A repeat never counts twice, because its bit is already set.

## Model

| member | source | states |
|---|---|---|
| Clearance.FlagOf | hw2.c:41-58 | `'s'`, `'m'`, `'c'` name sword, midnight, clamp; everything else names no clearance; the inverse of `CharOf` |
| Clearance.Grant | hw2.c:143-144 | or-ing in a clearance's bit: afterwards the mask holds it, the other two clearances are as before, no bit is cleared, and a mask that already held it is unchanged |
| Clearance.Pack | hw2.c:28-34 | the packed mask holds each clearance exactly when its argument is non-zero |
| Clearance.MaskExtensional | hw2.c:34 | a three-bit mask is determined by which of the three clearances it holds |
| Clearance.PackOfHeld | hw2.c:28-34 | packing a mask's own three bits gives back that mask, so every mask can be stored by sys_set_sec |
| Syscalls.Kernel.SetSec | hw2.c:18-37 | a non-root caller gets -EPERM, even with negative arguments; a root caller with a negative argument gets -EINVAL; both leave the table as it was; otherwise it returns 0, and only the caller's mask changes, to exactly the packed arguments (replaced, not merged) so a repeated call leaves the same table; get_sec then reads back each argument as 0 or 1 |
| Syscalls.Kernel.GetSec | hw2.c:39-60 | -EINVAL for a character other than `'s'`, `'m'` and `'c'`, otherwise the caller's bit for that clearance as 1 or 0; it reads the table only |
| Syscalls.Kernel.CheckSec | hw2.c:63-107 | -ESRCH for a target that is not visible (`find_vpid`/`kill_pid`) or has no task (`pid_task`), whatever the character and the caller's mask; then -EINVAL for a bad character; then -EPERM if the caller lacks the bit; otherwise the target's bit as 1 or 0; asking about oneself with success answers 1, as get_sec does; it reads the table only |
| Syscalls.Kernel.SetSecBranch | hw2.c:110-153 | -EINVAL for height <= 0 or a bad character, checked before the caller's clearance; then -EPERM if the caller lacks the bit; both leave the table as it was; otherwise the table becomes `Propagate` of the old table along the caller's first `height` ancestors, the caller's own entry is unchanged, the table stays closed under parents, and the result is the number of processes whose bit went from 0 to 1, between 0 and height |
| Syscalls.GrantBranch | hw2.c:111-152 | the successful path from the caller's parent: its outcome equals `Propagate`, the caller's entry is unchanged, and the count is the number of bits turned on, at most height |
| Syscalls.GrantToAncestors | hw2.c:139-150 | the loop: after `height` steps up the chain from the start, the table has the bit granted to exactly the chain's processes, and the count equals the number of those that lacked it |
| Syscalls.VisitAncestor | hw2.c:142-149 | one loop body: it takes the walk from its state after i iterations to its state after i + 1 |
| Tasks.Chain | hw2.c:111 | following k parent links gives k live processes, the first being the start |
| Tasks.ChainLinks | hw2.c:149 | each process on a chain after the first is the parent of the one before it |
| Tasks.Up | hw2.c:149 | the process reached after k steps up is live |
| Tasks.UpNext | hw2.c:149 | one more step up reaches the parent of the process reached so far |
| Tasks.ChainSnoc | hw2.c:141-150 | a chain one step longer ends with the next process up |
| Tasks.AncestorsWalk | hw2.c:111-150 | the walk visits exactly height live processes: the caller's parent first, and after each process its parent |
| Tasks.Elems | hw2.c:143-145 | a definition: the set of a sequence's members, so each distinct process visited is counted once; its properties used elsewhere are `ElemsSnoc` and `ElemsBound` |
| Tasks.ElemsSnoc | hw2.c:141-150 | visiting one more process adds exactly that process to the visited set |
| Tasks.ElemsBound | hw2.c:141-150 | a walk of n steps visits at most n distinct processes |
| Tasks.GrantAll | hw2.c:143-144 | a definition: the table with a clearance or-ed into every process of a set, stated entry by entry; what follows from it for the walk is `PropagateEffect` and `PropagateFlips` |
| Tasks.GrantAllKeepsParents | hw2.c:143-144 | granting never changes a parent link, so the table stays closed under parents |
| Tasks.GrantNone | hw2.c:113 | granting to no process changes nothing and finds no process lacking the bit |
| Tasks.WalkStart | hw2.c:111-113 | before the first iteration the walk stands at its start, nothing is granted and the count is 0 |
| Tasks.GrantStep | hw2.c:143-146 | one loop body: adding a process that lacks the bit to the granted set is the single update `clearance \|= required_bit`, and the set of processes that lacked the bit grows by that process; adding one that holds the bit changes nothing |
| Tasks.WalkGrant | hw2.c:143-149 | an iteration at a process lacking the bit: or-ing the bit into it, adding one to the count and moving to its parent gives the walk's state after i + 1 iterations |
| Tasks.WalkSkip | hw2.c:143-149 | an iteration at a process holding the bit: changing nothing and moving to its parent gives the walk's state after i + 1 iterations |
| Tasks.WalkOutcome | hw2.c:141-152 | a completed walk from the caller's parent is `Propagate`; the caller's entry is unchanged, and the count is the number of bits turned on, at most height |
| Tasks.ChainSameParents | hw2.c:149 | two tables with the same pids and parent links have the same chains |
| Tasks.PropagateKeepsTree | hw2.c:141-150 | sys_set_sec_branch keeps every pid and every parent link |
| Tasks.PropagateEffect | hw2.c:141-150 | every visited ancestor holds the bit afterwards; every process keeps its other bits; no bit is cleared; a process that already held the bit, and every process off the visited chain, is untouched |
| Tasks.PropagateFlips | hw2.c:143-152 | the processes whose bit is turned on are exactly the visited ancestors that lacked it; there are at most as many as distinct ancestors visited, and at most height |
| Tasks.IdleTaskWalk | hw2.c:141-152 | a walk of height 2 from a child of `init`, where nobody holds sword, visits `init` and then the idle task and turns both bits on |
| Tasks.PropagateIdempotent | hw2.c:141-152 | a second walk along the same chain visits the same processes, changes nothing and turns on no bit, so a repeated sys_set_sec_branch returns 0 |

## Left out

- `sys_hello` (hw2.c:12-15) only prints a message and has no logic.
- The credential test `uid_eq(current->cred->euid, KUIDT_INIT(0))` is the
  input `callerIsRoot` of `SetSec`.
- `find_vpid` and `kill_pid(..., 0, NULL)` are reduced to the given set
  `visible`, and `pid_task` to membership in the table. Why a pid is or is not
  visible is not modelled: pid namespaces and the permission test of
  `kill_pid` both decide it. Neither `SetSec` nor `SetSecBranch` changes
  `visible`.
- Concurrency, RCU, locking and processes exiting during the walk are not
  modelled. The model is the sequential behaviour of one call.
- The syscall ABI, registration and the delivery of errno values to user
  space are not modelled. A call's result is the negative errno or the
  value it returns.
- C integer widths are not modelled. Arguments are only compared with zero,
  and the loop counter and `updated_count` never exceed `height`, so no
  overflow can occur. `char` is a Dafny `char`.
- The `clearance` field is modelled as exactly three bits (`bv3`). Any higher
  bits a real `task_struct` field could carry are not represented. None of the
  four calls ever sets them.
- Syscalls.GrantToAncestors and `VisitAncestor` work on a table value, and
  `SetSecBranch` stores the final table once. The per-step in-place writes
  to the ancestors are not observable states of the model.
- Syscalls.Kernel.SetSecBranch does not state CheckSec's answer for the
  visited ancestors directly. It states the new table as `Propagate`, and
  `Tasks.PropagateEffect` proves that every visited ancestor then
  holds the bit.
