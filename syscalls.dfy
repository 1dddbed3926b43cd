/** The four clearance system calls of hw2.c over the kernel's process
    table. The credential check is the input `callerIsRoot`; the lookup of a
    pid by sys_check_sec is membership in the set of pids it can find. */
module Syscalls {
  import opened Clearance
  import opened Tasks

  class Kernel {
    /** The live processes with their clearance and parent link. */
    var tasks: Table
    /** The pid of the calling process (`current`). */
    var current: Pid
    /** The pids that pass the first existence test of sys_check_sec:
        `find_vpid` resolves them in the caller's namespace and
        `kill_pid(..., 0, NULL)` succeeds on them. The second test,
        `pid_task`, is membership in `tasks`. A task reached by parent links
        need not pass the first (the idle task, an ancestor outside the
        namespace, one the caller may not signal). */
    var visible: set<Pid>

    ghost predicate Valid()
      reads this
    {
      current in tasks && ParentsClosed(tasks)
    }

    constructor (t: Table, caller: Pid, found: set<Pid>)
      requires caller in t && ParentsClosed(t)
      ensures Valid() && tasks == t && current == caller && visible == found
    {
      tasks := t;
      current := caller;
      visible := found;
    }

    /** sys_set_sec: root only; replaces the caller's whole mask by the three
        normalised arguments. Error order: -EPERM before -EINVAL; a failing
        call changes nothing, and a successful one only the caller's mask,
        after which sys_get_sec reads back each argument as 0 or 1. */
    method SetSec(callerIsRoot: bool, sword: int, midnight: int, clamp: int) returns (r: int)
      requires Valid()
      modifies this
      ensures Valid() && current == old(current) && visible == old(visible)
      ensures !callerIsRoot ==> r == -EPERM
      ensures callerIsRoot && (sword < 0 || midnight < 0 || clamp < 0) ==> r == -EINVAL
      ensures callerIsRoot && sword >= 0 && midnight >= 0 && clamp >= 0 ==> r == 0
      ensures r != 0 ==> tasks == old(tasks)
      ensures r == 0 ==>
                tasks == old(tasks)[current := old(tasks)[current].(clearance := Pack(sword, midnight, clamp))]
      ensures r == 0 ==>
                GetSec('s') == (if sword != 0 then 1 else 0)
                && GetSec('m') == (if midnight != 0 then 1 else 0)
                && GetSec('c') == (if clamp != 0 then 1 else 0)
    {
      if !callerIsRoot {
        return -EPERM;
      }
      if sword < 0 || midnight < 0 || clamp < 0 {
        return -EINVAL;
      }
      tasks := tasks[current := tasks[current].(clearance := Pack(sword, midnight, clamp))];
      return 0;
    }

    /** sys_get_sec: one bit of the caller's own mask as 0 or 1, or -EINVAL
        for a character other than 's', 'm' and 'c'. */
    function GetSec(clr: char): (r: int)
      reads this
      requires Valid()
      ensures FlagOf(clr).None? ==> r == -EINVAL
      ensures FlagOf(clr).Some? ==> r == BitValue(tasks[current].clearance, FlagOf(clr).value)
    {
      var m := tasks[current].clearance;
      match clr
      case 's' => if m & 1 != 0 then 1 else 0
      case 'm' => if m & (1 << 1) != 0 then 1 else 0
      case 'c' => if m & (1 << 2) != 0 then 1 else 0
      case _ => -EINVAL
    }

    /** sys_check_sec: whether process `pid` holds a clearance, answered only
        to a caller that holds it. Error order: -ESRCH for a target it cannot
        find whatever the character and the caller's mask, then -EINVAL for a
        bad character, then -EPERM for a caller without the bit. A caller
        asking about itself is answered as sys_get_sec answers it. */
    function CheckSec(pid: Pid, clr: char): (r: int)
      reads this
      requires Valid()
      ensures pid !in visible || pid !in tasks ==> r == -ESRCH
      ensures pid in visible && pid in tasks && FlagOf(clr).None? ==> r == -EINVAL
      ensures pid in visible && pid in tasks && FlagOf(clr).Some? ==>
                r == if Has(tasks[current].clearance, FlagOf(clr).value)
                     then BitValue(tasks[pid].clearance, FlagOf(clr).value)
                     else -EPERM
      ensures pid == current && r >= 0 ==> r == 1 && r == GetSec(clr)
    {
      if pid !in visible then -ESRCH
      else if pid !in tasks then -ESRCH
      else if clr != 's' && clr != 'm' && clr != 'c' then -EINVAL
      else
        var requiredBit := Bit(FlagOf(clr).value);
        if tasks[current].clearance & requiredBit == 0 then -EPERM
        else if tasks[pid].clearance & requiredBit != 0 then 1
        else 0
    }

    /** sys_set_sec_branch: or the clearance into the first `height`
        ancestors of the caller, starting at its parent, and count the
        processes whose bit went from 0 to 1. Error order: -EINVAL for a
        non-positive height or a bad character, then -EPERM for a caller
        without the bit; a failing call changes nothing. */
    method SetSecBranch(height: int, clr: char) returns (r: int)
      requires Valid()
      modifies this
      ensures Valid() && current == old(current) && visible == old(visible)
      ensures height <= 0 || FlagOf(clr).None? ==> r == -EINVAL && tasks == old(tasks)
      ensures height > 0 && FlagOf(clr).Some? && !Has(old(tasks)[current].clearance, FlagOf(clr).value) ==>
                r == -EPERM && tasks == old(tasks)
      ensures height > 0 && FlagOf(clr).Some? && Has(old(tasks)[current].clearance, FlagOf(clr).value) ==>
                tasks == Propagate(old(tasks), current, height, FlagOf(clr).value)
                && r == |Flipped(old(tasks), tasks, FlagOf(clr).value)|
                && 0 <= r <= height
                && tasks[current] == old(tasks)[current]
    {
      var sel := FlagOf(clr);
      if height <= 0 || sel.None? {
        return -EINVAL;
      }
      var f := sel.value;
      if tasks[current].clearance & Bit(f) == 0 {
        return -EPERM;
      }
      var t, n := GrantBranch(tasks, current, height, f);
      tasks := t;
      r := n;
    }
  }

  /** The successful path of sys_set_sec_branch for a caller `me` that holds
      f: the loop run from its parent, with its outcome stated against
      Propagate. */
  method GrantBranch(t0: Table, me: Pid, height: int, f: Flag) returns (t: Table, n: int)
    requires ParentsClosed(t0) && me in t0 && Has(t0[me].clearance, f) && height > 0
    ensures t == Propagate(t0, me, height, f)
    ensures me in t && t[me] == t0[me]
    ensures n == |Flipped(t0, t, f)| && 0 <= n <= height
  {
    assert t0[me].parent in t0;
    t, n := GrantToAncestors(t0, t0[me].parent, height, f);
    WalkOutcome(t0, me, height, f, t, n);
  }

  /** The loop of sys_set_sec_branch: `height` iterations up the parent
      chain from `start`, each or-ing the bit of f into the process visited
      if it lacks it and counting that change. The table comes out with f
      granted to the first `height` processes of the chain, and the count is
      the number of those that lacked it. */
  method GrantToAncestors(t0: Table, start: Pid, height: int, f: Flag) returns (t: Table, updatedCount: int)
    requires ParentsClosed(t0) && start in t0 && height > 0
    ensures t == GrantAll(t0, Elems(Chain(t0, start, height)), f)
    ensures updatedCount == |Lacking(t0, Elems(Chain(t0, start, height)), f)|
  {
    WalkStart(t0, start, f);
    t := t0;
    var parentTask := start;
    updatedCount := 0;
    var i := 0;
    while i < height
      invariant 0 <= i <= height
      invariant WalkState(t0, start, f, i, parentTask, t, updatedCount)
    {
      t, updatedCount, parentTask := VisitAncestor(t0, start, f, i, t, updatedCount, parentTask);
      i := i + 1;
    }
  }

  /** The body of the loop of sys_set_sec_branch: or the bit of f into the
      process the walk stands at if it lacks it, counting that change, then
      move to its parent. It takes the walk from its state after i
      iterations to its state after i + 1. */
  method VisitAncestor(t0: Table, start: Pid, f: Flag, i: nat, t: Table, updatedCount: int, parentTask: Pid)
    returns (t': Table, updatedCount': int, parentTask': Pid)
    requires ParentsClosed(t0) && start in t0
    requires WalkState(t0, start, f, i, parentTask, t, updatedCount)
    ensures WalkState(t0, start, f, i + 1, parentTask', t', updatedCount')
  {
    t', updatedCount' := t, updatedCount;
    if t'[parentTask].clearance & Bit(f) == 0 {
      WalkGrant(t0, start, f, i, parentTask, t, updatedCount);
      t' := t'[parentTask := t'[parentTask].(clearance := t'[parentTask].clearance | Bit(f))];
      updatedCount' := updatedCount' + 1;
    } else {
      WalkSkip(t0, start, f, i, parentTask, t, updatedCount);
    }
    parentTask' := t'[parentTask].parent;
  }
}
