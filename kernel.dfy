/**
 * The WeensyOS kernel of pset3/kernel.cc as a state machine: the `pages`
 * reference counts, the process table `ptable`, the `current` process, the
 * frame contents and the kernel page table, with the allocator, the process
 * setup, the trap handlers and the scheduler as methods over them.
 *
 * `allocatable_physical_address` is the set `allocatable`; `vmiter::try_map`
 * may fail at any call, because the page-table pages it would need are not
 * modelled; page tables are values held in the descriptors.
 */
module WeensyOS {
  import opened Common
  import opened KernelMemory

  class Kernel {
    /** The frames `allocatable_physical_address` accepts. */
    const allocatable: set<nat>
    /** `kernel_pagetable` as `kernel()` re-initializes it. */
    const kernelMap: map<nat, Pte>
    /** `pages[f].refcount`. */
    const pages: array<int>
    /** The contents of each physical frame. */
    const mem: array<Content>
    /** `ptable`. */
    const procs: array<Proc>
    /** The slot `current` points to. */
    var current: nat

    /** The shapes every operation relies on; frame 0 (the null pointer) is never allocatable. */
    predicate Sized()
    {
      pages.Length == NPAGES && mem.Length == NPAGES && procs.Length == NPROC && 0 !in allocatable
    }

    /** The kernel invariant: each slot knows its own pid, every live slot owns a table
        of real frames, and the reference counts cover all references of live tables. */
    ghost predicate Valid()
      reads this, pages, procs
    {
      Sized() && BootMapping(kernelMap) && current < NPROC && Table(procs[..]) && Covers(pages[..], procs[..])
    }

    // -------------------------------------------------------------------------
    // Physical pages

    /** `kalloc`: first fit over the frames in address order; the frame found gets
        count 1 and is filled with 0xCC. Null (0) when sz > PAGESIZE or nothing is free. */
    method Kalloc(sz: nat) returns (f: nat)
      requires Sized()
      modifies pages, mem
      ensures f == (if sz > PAGESIZE then 0 else FirstFree(old(pages[..]), allocatable, 0))
      ensures f == 0 ==> pages[..] == old(pages[..]) && mem[..] == old(mem[..])
      ensures f != 0 ==> f < NPAGES && pages[..] == old(pages[..])[f := 1] && mem[..] == old(mem[..])[f := Int3Fill]
    {
      if sz > PAGESIZE {
        return 0;
      }
      var pa := 0;
      while pa < NPAGES
        invariant pa <= NPAGES
        invariant pages[..] == old(pages[..]) && mem[..] == old(mem[..])
        invariant FirstFree(pages[..], allocatable, pa) == FirstFree(pages[..], allocatable, 0)
      {
        var frame := pa;
        pa := pa + 1;
        if frame in allocatable && pages[frame] == 0 {
          pages[frame] := 1;
          mem[frame] := Int3Fill;
          return frame;
        }
      }
      return 0;
    }

    /** `kfree`: nothing for null; otherwise one count less, and a frame whose count
        reaches 0 is filled with 0xCC again. */
    method Kfree(f: nat)
      requires Sized() && f < NPAGES && (f != 0 ==> pages[f] > 0)
      modifies pages, mem
      ensures f == 0 ==> pages[..] == old(pages[..]) && mem[..] == old(mem[..])
      ensures f != 0 ==> pages[..] == old(pages[..])[f := old(pages[f]) - 1]
      ensures f != 0 ==> mem[..] == if pages[f] == 0 then old(mem[..])[f := Int3Fill] else old(mem[..])
    {
      if f != 0 {
        pages[f] := pages[f] - 1;
        if pages[f] == 0 {
          mem[f] := Int3Fill;
        }
      }
    }

    // -------------------------------------------------------------------------
    // Page-table construction

    /** `vmiter::try_map`: either installs e at page v, or fails and leaves the table as it was. */
    static method TryMap(m: map<nat, Pte>, v: nat, e: Option<Pte>) returns (ok: bool, m': map<nat, Pte>)
      ensures m' == if ok then Install(m, v, e) else m
    {
      ok := *;
      m' := if ok then Install(m, v, e) else m;
    }

    /** The loop that mirrors `kernel_pagetable` below PROC_START_ADDR into a new table,
        page by page; it stops at the first mapping that fails. */
    method CopyKernelMappings() returns (ok: bool, cm: map<nat, Pte>)
      ensures forall v | v in cm :: v < PROC_START_PAGE
      ensures ok ==> KernelPart(cm, kernelMap)
    {
      cm := map[];
      var v := 0;
      while v < PROC_START_PAGE
        invariant v <= PROC_START_PAGE
        invariant forall k | k in cm :: k < v
        invariant forall k | 0 <= k < v :: (k in cm <==> k in kernelMap) && (k in cm ==> cm[k] == kernelMap[k])
      {
        var e := if v in kernelMap then Some(kernelMap[v]) else None;
        ok, cm := TryMap(cm, v, e);
        if !ok {
          return;
        }
        v := v + 1;
      }
      ok := true;
    }

    // -------------------------------------------------------------------------
    // Process teardown

    /** `exit_proc`: frees every page present from PROC_START_ADDR through
        MEMSIZE_VIRTUAL (the loop bound is `<=`), then the root, and marks the slot
        free. Each count drops by exactly the references the table held. */
    method ExitProc(pid: nat)
      requires Sized() && pid < NPROC
      requires procs[pid].pt.Some? ==>
        InRange(procs[pid].pt.value) && forall f | 0 <= f < NPAGES :: Released(procs[pid].pt.value, f) <= pages[f]
      modifies pages, mem, procs
      ensures procs[..] == old(procs[..])[pid := old(procs[pid]).(state := Free)]
      ensures old(procs[pid].pt).None? ==> pages[..] == old(pages[..])
      ensures old(procs[pid].pt).Some? ==>
        forall f | 0 <= f < NPAGES :: pages[f] + Released(old(procs[pid].pt.value), f) == old(pages[f])
      ensures forall f | 0 <= f < NPAGES ::
        mem[f] == if pages[f] == 0 && pages[f] != old(pages[f]) then Int3Fill else old(mem[f])
    {
      var pt := procs[pid].pt;
      if pt.Some? {
        var t := pt.value;
        var v := PROC_START_PAGE;
        while v <= VPAGES
          invariant PROC_START_PAGE <= v <= EXIT_END
          invariant procs[..] == old(procs[..])
          invariant forall f | 0 <= f < NPAGES :: pages[f] <= old(pages[f])
          invariant forall f | 0 <= f < NPAGES ::
            mem[f] == if pages[f] == 0 && pages[f] != old(pages[f]) then Int3Fill else old(mem[f])
          invariant forall f | 0 <= f < NPAGES :: pages[f] >= Uses(t.entries, v, EXIT_END, f) + (if t.root == f then 1 else 0)
          invariant forall f | 0 <= f < NPAGES ::
            pages[f] + Uses(t.entries, PROC_START_PAGE, EXIT_END, f) == old(pages[f]) + Uses(t.entries, v, EXIT_END, f)
        {
          if v in t.entries {
            Kfree(t.entries[v].frame);
          }
          v := v + 1;
        }
        Kfree(t.root);
      }
      procs[pid] := procs[pid].(state := Free);
    }

    // -------------------------------------------------------------------------
    // Fork

    /** The scan for the lowest free slot from 1; NPROC when there is none. */
    method FreeSlot() returns (pid: nat)
      requires Sized()
      ensures 1 <= pid <= NPROC
      ensures forall i | 1 <= i < pid :: procs[i].state != Free
      ensures pid < NPROC ==> procs[pid].state == Free
    {
      pid := 1;
      while pid < NPROC && procs[pid].state != Free
        invariant 1 <= pid <= NPROC
        invariant forall i | 1 <= i < pid :: procs[i].state != Free
      {
        pid := pid + 1;
      }
    }

    /** `sys_fork`: finds the lowest free slot from 1, gives it a fresh root, copies the
        kernel's low mappings and walks the parent's process area, as Forking states.

        The child's `pagetable` pointer is set as soon as its root is allocated, and the
        mappings reach it through that pointer; the model builds the table as a value
        and stores it into the slot before `exit_proc` reads it and at the end. */
    method Fork() returns (r: int)
      requires Valid() && procs[current].state != Free
      modifies pages, mem, procs
      ensures Valid()
      ensures Forking(kernelMap, current, old(pages[..]), pages[..], old(mem[..]), mem[..], old(procs[..]), procs[..], r)
    {
      var pid := FreeSlot();
      if pid == NPROC {
        return -1;
      }
      r := ForkInto(pid);
    }

    /** `sys_fork` once slot pid was found free. */
    method ForkInto(pid: nat) returns (r: int)
      requires Valid() && procs[current].state != Free && 0 < pid < NPROC && procs[pid].state == Free
      modifies pages, mem, procs
      ensures Valid()
      ensures r == -1 || r == pid
      ensures forall f | 0 <= f < NPAGES && old(pages[f]) != 0 :: mem[f] == old(mem[f])
      ensures r == -1 ==>
        pages[..] == old(pages[..]) && procs[..] == old(procs[..])[pid := procs[pid]]
        && procs[pid].state == Free && procs[pid].pid == pid
      ensures r == pid ==>
        procs[r].pt.Some?
        && procs[..] == old(procs[..])[r := Proc(r, Runnable, old(procs[current].regs).(rax := 0), procs[r].pt)]
        && Forked(old(procs[current].pt.value.entries), procs[r].pt.value.entries, kernelMap, mem[..])
        && Private(old(procs[current].pt.value.entries), procs[r].pt.value.entries, old(pages[..]), pages[..], VPAGES)
        && forall f | 0 <= f < NPAGES :: pages[f] == old(pages[f]) + Released(procs[r].pt.value, f)
    {
      ghost var s, base := procs[..], pages[..];
      var parent := procs[current];
      var pm := parent.pt.value.entries;
      ParentHolds(s, current, base);
      // init_process
      var child := procs[pid].(regs := InitRegs);
      FirstFreeFits(pages[..], allocatable, 0);
      var root := Kalloc(PAGESIZE);
      if root == 0 {
        procs[pid] := child.(pt := None);
        TableSet(s, pid, procs[pid]);
        CoversKeep(pages[..], s, pid, procs[pid]);
        return -1;
      }
      mem[root] := ZeroFill;
      var ok, cm0 := CopyKernelMappings();
      WalkStart(pm, root, cm0, base, pages[..], mem[..]);
      if !ok {
        Abandon(pid, child.(pt := Some(PageTable(root, cm0))), 0, base);
        TableSet(s, pid, procs[pid]);
        CoversKeep(pages[..], s, pid, procs[pid]);
        return -1;
      }
      var cm, extra;
      ok, cm, extra := CopyUserPages(pm, root, cm0, s, base);
      var t := PageTable(root, cm);
      if !ok {
        Abandon(pid, child.(pt := Some(t)), extra, base);
        TableSet(s, pid, procs[pid]);
        CoversKeep(pages[..], s, pid, procs[pid]);
        return -1;
      }
      procs[pid] := Proc(pid, Runnable, parent.regs.(rax := 0), Some(t));
      KeysKernel(cm, cm0, kernelMap);
      TableSet(s, pid, procs[pid]);
      CoversAdd(base, pages[..], s, pid, procs[pid]);
      return pid;
    }

    /** A failed fork: the child's descriptor stored, `exit_proc` on its table, then `kfree` of a copy that
        was allocated but not mapped (none when extra is 0). The counts return to base. */
    method Abandon(pid: nat, child: Proc, extra: nat, ghost base: seq<int>)
      requires Sized() && pid < NPROC && child.pt.Some? && InRange(child.pt.value) && extra < NPAGES
      requires Counted(child.pt.value.root, child.pt.value.entries, base, pages[..], extra)
      requires forall f | 0 <= f < NPAGES :: 0 <= base[f]
      modifies pages, mem, procs
      ensures procs[..] == old(procs[..])[pid := child.(state := Free)]
      ensures pages[..] == base
      ensures forall f | 0 <= f < NPAGES && base[f] != 0 :: mem[f] == old(mem[f])
    {
      procs[pid] := child;
      ExitProc(pid);
      Kfree(extra);
      assert forall f | 0 <= f < NPAGES :: pages[f] == base[f];
    }

    /** The fork walk over the process area of the parent's mappings pm, building the
        child's table cm from cm0 (the kernel part) and its root. A writable user page
        gets a fresh frame with a copy of the contents, any other present page is shared
        and its count raised. The counts stay exactly those before the child's root was
        allocated (base) plus the child's references; on failure `extra` is a copy that
        was allocated but could not be mapped. */
    method CopyUserPages(pm: map<nat, Pte>, root: nat, cm0: map<nat, Pte>, ghost s: seq<Proc>, ghost base: seq<int>)
        returns (ok: bool, cm: map<nat, Pte>, extra: nat)
      requires Sized() && Parent(pm, s, base)
      requires 0 < root < NPAGES && forall v | v in cm0 :: v < PROC_START_PAGE
      requires forall f | 0 <= f < NPAGES :: pages[f] == base[f] + (if f == root then 1 else 0)
      modifies pages, mem
      ensures Keys(cm, cm0, VPAGES) && InRange(PageTable(root, cm)) && extra < NPAGES
      ensures ok ==> extra == 0 && DuplicatedRange(pm, cm, mem[..], PROC_START_PAGE, VPAGES)
      ensures ok ==> Private(pm, cm, base, pages[..], VPAGES)
      ensures Counted(root, cm, base, pages[..], extra)
      ensures forall f | 0 <= f < NPAGES && base[f] != 0 :: mem[f] == old(mem[f])
    {
      cm := cm0;
      extra := 0;
      WalkStart(pm, root, cm0, base, pages[..], mem[..]);
      var v := PROC_START_PAGE;
      while v < VPAGES
        invariant extra == 0 && Walk(pm, root, cm, cm0, v, base, pages[..], mem[..])
        invariant forall f | 0 <= f < NPAGES && base[f] != 0 :: mem[f] == old(mem[f])
      {
        if v in pm && pm[v].writable && pm[v].user {
          ok, cm, extra := CopyPrivate(pm, v, root, cm, cm0, s, base);
        } else if v in pm {
          ok, cm := SharePage(pm, v, root, cm, cm0, s, base);
        } else {
          WalkSkip(pm, root, cm, cm0, v, base, pages[..], mem[..]);
          ok := true;
        }
        if !ok {
          return;
        }
        v := v + 1;
      }
      ok := true;
    }

    /** One step of the fork walk at a writable user page v: a fresh frame holding a
        copy of the parent's page. */
    method CopyPrivate(pm: map<nat, Pte>, v: nat, root: nat, cm: map<nat, Pte>, ghost cm0: map<nat, Pte>,
                       ghost s: seq<Proc>, ghost base: seq<int>)
        returns (ok: bool, cm': map<nat, Pte>, extra: nat)
      requires Sized() && Parent(pm, s, base) && v < VPAGES && v in pm && pm[v].writable && pm[v].user
      requires Walk(pm, root, cm, cm0, v, base, pages[..], mem[..])
      modifies pages, mem
      ensures ok ==> extra == 0 && Walk(pm, root, cm', cm0, v + 1, base, pages[..], mem[..])
      ensures ok ==>
        v in cm' && cm' == cm[v := pm[v].(frame := cm'[v].frame)] && 0 < cm'[v].frame < NPAGES
        && old(pages[cm'[v].frame]) == 0 && pages[..] == old(pages[..])[cm'[v].frame := 1]
        && mem[..] == old(mem[..])[cm'[v].frame := old(mem[pm[v].frame])]
      ensures !ok ==> cm' == cm && extra < NPAGES && Counted(root, cm, base, pages[..], extra)
      ensures forall f | 0 <= f < NPAGES && old(pages[f]) != 0 :: mem[f] == old(mem[f])
    {
      ghost var before, memory := pages[..], mem[..];
      cm' := cm;
      extra := 0;
      FirstFreeFits(pages[..], allocatable, 0);
      var f := Kalloc(PAGESIZE);
      if f == 0 {
        return false, cm, 0;
      }
      WalkCopy(pm, root, cm, cm0, v, s, base, before, memory, f);
      mem[f] := mem[pm[v].frame];
      assert mem[..] == memory[f := memory[pm[v].frame]];
      ok, cm' := TryMap(cm, v, Some(pm[v].(frame := f)));
      if !ok {
        CountExtra(root, cm, base, before, f);
        extra := f;
      }
    }

    /** One step of the fork walk at any other present page v: the parent's frame,
        one reference more. */
    method SharePage(pm: map<nat, Pte>, v: nat, root: nat, cm: map<nat, Pte>, ghost cm0: map<nat, Pte>,
                     ghost s: seq<Proc>, ghost base: seq<int>)
        returns (ok: bool, cm': map<nat, Pte>)
      requires Sized() && Parent(pm, s, base) && v < VPAGES && v in pm && !(pm[v].writable && pm[v].user)
      requires Walk(pm, root, cm, cm0, v, base, pages[..], mem[..])
      modifies pages
      ensures ok ==> Walk(pm, root, cm', cm0, v + 1, base, pages[..], mem[..])
      ensures ok ==>
        cm' == cm[v := pm[v]] && pm[v].frame < NPAGES
        && pages[..] == old(pages[..])[pm[v].frame := old(pages[pm[v].frame]) + 1]
      ensures !ok ==> cm' == cm && pages[..] == old(pages[..])
    {
      ok, cm' := TryMap(cm, v, Some(pm[v]));
      if ok {
        ghost var before := pages[..];
        WalkShare(pm, root, cm, cm0, v, s, base, before, mem[..]);
        var g := pm[v].frame;
        pages[g] := pages[g] + 1;
        assert pages[..] == before[g := before[g] + 1];
      }
    }

    // -------------------------------------------------------------------------
    // Page allocation for a process

    /** `syscall_page_alloc`, as PageAllocated states, for the current process. */
    method PageAlloc(addr: nat) returns (o: Outcome)
      requires Valid() && procs[current].state != Free
      modifies pages, mem, procs
      ensures Valid()
      ensures PageAllocated(addr, allocatable, current, old(pages[..]), pages[..], old(mem[..]), mem[..],
                            old(procs[..]), procs[..], o)
    {
      if addr < PROC_START_ADDR || addr >= MEMSIZE_VIRTUAL || addr % PAGESIZE != 0 {
        return Returned(-1);
      }
      ghost var s, base := procs[..], pages[..];
      FirstFreeFits(pages[..], allocatable, 0);
      var f := Kalloc(PAGESIZE);
      if f == 0 {
        return Returned(-1);
      }
      mem[f] := ZeroFill;
      var p := procs[procs[current].pid];
      var e := Pte(f, true, true);
      var ok, m := TryMap(p.pt.value.entries, addr / PAGESIZE, Some(e));
      if !ok {
        // `vmiter::map` asserts that the mapping succeeded
        return Panicked;
      }
      procs[current] := p.(pt := Some(p.pt.value.(entries := m)));
      TableSet(s, current, procs[current]);
      CoversMap(base, pages[..], s, current, addr / PAGESIZE, e);
      return Returned(0);
    }

    // -------------------------------------------------------------------------
    // Exit

    /** `sys_exit`: `exit_proc` on the current process; its references leave the counts. */
    method Exit()
      requires Valid() && procs[current].state != Free
      modifies pages, mem, procs
      ensures Valid()
      ensures procs[..] == old(procs[..])[current := old(procs[current]).(state := Free)]
      ensures forall f | 0 <= f < NPAGES :: pages[f] + Released(old(procs[current].pt.value), f) == old(pages[f])
      ensures forall f | 0 <= f < NPAGES ::
        mem[f] == if pages[f] == 0 && pages[f] != old(pages[f]) then Int3Fill else old(mem[f])
    {
      ghost var s, base := procs[..], pages[..];
      HeldCovered(base, s, current);
      ExitProc(procs[current].pid);
      TableSet(s, current, procs[current]);
      CoversRemove(base, pages[..], s, current, procs[current]);
    }

    // -------------------------------------------------------------------------
    // Scheduling

    /** `run`: a process that is not runnable fails the assertion (a panic); otherwise
        it becomes `current` and runs. */
    method Run(p: nat) returns (o: Outcome)
      requires Valid() && p < NPROC
      modifies this
      ensures Valid()
      ensures o == (if procs[p].state == Runnable then Ran(p) else Panicked)
      ensures current == (if o.Ran? then p else old(current))
    {
      if procs[p].state != Runnable {
        return Panicked;
      }
      current := p;
      return Ran(p);
    }

    /** `schedule`: slots after `current` in circular order, the first runnable one
        runs. The source spins forever when none is; as nothing changes while it
        spins, the model stops after one full circle with Idle. */
    method Schedule() returns (o: Outcome)
      requires Valid()
      modifies this
      ensures Valid()
      ensures o == Pick(procs[..], old(current))
      ensures current == (if o.Ran? then o.pid else old(current))
    {
      ghost var c := current;
      var pid := procs[current].pid;
      SlotNext(c, 0);
      var spins := 1;
      while spins <= NPROC
        invariant 1 <= spins <= NPROC + 1 && pid < NPROC && pid == Slot(c, spins - 1)
        invariant current == c && Scan(procs[..], c, spins) == Pick(procs[..], c)
      {
        SlotNext(c, spins - 1);
        pid := (pid + 1) % NPROC;
        if procs[pid].state == Runnable {
          o := Run(pid);
          return;
        }
        spins := spins + 1;
      }
      return Idle;
    }

    // -------------------------------------------------------------------------
    // Trap entry

    /** The trap entry's first step: the registers saved into the current descriptor. */
    method SaveRegs(regs: Regs)
      requires Valid()
      modifies procs
      ensures Valid()
      ensures procs[..] == old(procs[..])[current := old(procs[current]).(regs := regs)]
    {
      ghost var s := procs[..];
      procs[current] := procs[current].(regs := regs);
      TableSet(s, current, procs[current]);
      CoversKeep(pages[..], s, current, procs[current]);
    }

    /** `exception`: the registers are saved; a timer interrupt schedules; a page fault
        from user mode marks the process broken and schedules; a page fault in kernel
        mode or any other exception panics. */
    method Exception(trap: Trap, regs: Regs) returns (o: Outcome)
      requires Valid() && procs[current].state == Runnable
      modifies this, procs
      ensures Valid()
      ensures trap.TimerInterrupt? ==>
        procs[..] == old(procs[..])[old(current) := old(procs[current]).(regs := regs)]
        && o == Pick(procs[..], old(current))
      ensures trap == PageFault(true) ==>
        procs[..] == old(procs[..])[old(current) := old(procs[current]).(regs := regs, state := Broken)]
        && o == Pick(procs[..], old(current))
      ensures trap == PageFault(false) || trap.OtherTrap? ==>
        o == Panicked && procs[..] == old(procs[..])[old(current) := old(procs[current]).(regs := regs)]
      ensures current == (if o.Ran? then o.pid else old(current))
    {
      SaveRegs(regs);
      match trap {
        case TimerInterrupt =>
          o := Schedule();
        case PageFault(user) =>
          if !user {
            return Panicked;
          }
          ghost var s := procs[..];
          procs[current] := procs[current].(state := Broken);
          TableSet(s, current, procs[current]);
          CoversKeep(pages[..], s, current, procs[current]);
          // the process is no longer runnable, so `exception` schedules instead of returning
          o := Schedule();
        case OtherTrap(_) =>
          return Panicked;
      }
    }

    /** `syscall`: the registers are saved, then the call number in rax selects the
        operation; SYSCALL_PANIC and unknown numbers panic. */
    method Syscall(regs: Regs) returns (o: Outcome)
      requires Valid() && procs[current].state == Runnable
      modifies this, procs, pages, mem
      ensures Valid()
      ensures current == (if o.Ran? then o.pid else old(current))
      ensures regs.rax == SYSCALL_GETPID ==>
        o == Returned(old(current)) && procs[..] == Saved(old(procs[..]), old(current), regs)
        && pages[..] == old(pages[..]) && mem[..] == old(mem[..])
      ensures regs.rax == SYSCALL_YIELD ==>
        procs[..] == Saved(old(procs[..]), old(current), regs.(rax := 0)) && o == Pick(procs[..], old(current))
        && pages[..] == old(pages[..]) && mem[..] == old(mem[..])
      ensures regs.rax == SYSCALL_PAGE_ALLOC ==>
        PageAllocated(regs.rdi, allocatable, old(current), old(pages[..]), pages[..], old(mem[..]), mem[..],
                      Saved(old(procs[..]), old(current), regs), procs[..], o)
      ensures regs.rax == SYSCALL_FORK ==>
        o.Returned? && Forking(kernelMap, old(current), old(pages[..]), pages[..], old(mem[..]), mem[..],
                               Saved(old(procs[..]), old(current), regs), procs[..], o.value)
      ensures regs.rax == SYSCALL_EXIT ==>
        procs[..] == Saved(old(procs[..]), old(current), regs)[old(current) := old(procs[current]).(regs := regs, state := Free)]
        && o == Pick(procs[..], old(current))
        && (forall f | 0 <= f < NPAGES :: pages[f] + Released(old(procs[current].pt.value), f) == old(pages[f]))
        && (forall f | 0 <= f < NPAGES ::
              mem[f] == if pages[f] == 0 && pages[f] != old(pages[f]) then Int3Fill else old(mem[f]))
      ensures regs.rax == SYSCALL_PANIC || !(SYSCALL_GETPID <= regs.rax <= SYSCALL_EXIT) ==>
        o == Panicked && procs[..] == Saved(old(procs[..]), old(current), regs)
        && pages[..] == old(pages[..]) && mem[..] == old(mem[..])
    {
      SaveRegs(regs);
      if regs.rax == SYSCALL_PANIC {
        o := Panicked;
      } else if regs.rax == SYSCALL_GETPID {
        o := Returned(procs[current].pid);
      } else if regs.rax == SYSCALL_YIELD {
        SaveRegs(regs.(rax := 0));
        o := Schedule();
      } else if regs.rax == SYSCALL_PAGE_ALLOC {
        o := PageAlloc(procs[current].regs.rdi);
      } else if regs.rax == SYSCALL_FORK {
        var r := Fork();
        o := Returned(r);
      } else if regs.rax == SYSCALL_EXIT {
        Exit();
        o := Schedule();
      } else {
        o := Panicked;
      }
    }

    // -------------------------------------------------------------------------
    // Boot

    /** `kernel()`: the kernel page table rebuilt below MEMSIZE_PHYSICAL, the counts
        and the process table as the zeroed globals hold them with every slot free and
        knowing its pid, and no process run yet. The frames `allocatable_physical_address`
        accepts and the initial frame contents are parameters. */
    constructor (allocatable: set<nat>, memory: seq<Content>)
      requires 0 !in allocatable && |memory| == NPAGES
      ensures Valid() && this.allocatable == allocatable && current == 0
      ensures fresh(pages) && fresh(mem) && fresh(procs)
      ensures (forall f | 0 <= f < NPAGES :: pages[f] == 0) && mem[..] == memory
      ensures forall i | 0 <= i < NPROC :: procs[i] == Proc(i, Free, InitRegs, None)
    {
      this.allocatable := allocatable;
      var km := BootPageTable();
      kernelMap := km;
      pages := new int[NPAGES](_ => 0);
      var contents := new Content[NPAGES](f requires 0 <= f < NPAGES => memory[f]);
      mem := contents;
      var table := new Proc[NPROC](_ => Proc(0, Free, InitRegs, None));
      for i := 0 to NPROC
        modifies table
        invariant forall j | 0 <= j < i :: table[j] == Proc(j, Free, InitRegs, None)
        invariant forall j | i <= j < NPROC :: table[j] == Proc(0, Free, InitRegs, None)
      {
        table[i] := table[i].(pid := i, state := Free);
      }
      procs := table;
      current := 0;
      assert contents[..] == memory;
      new;
      forall f | 0 <= f < NPAGES ensures Refs(procs[..], f) == 0 {
        RefsFree(procs[..], f);
      }
    }

    /** The loop of `kernel()` over the kernel page table: identity mappings below
        MEMSIZE_PHYSICAL, user-accessible from PROC_START_ADDR and at the console,
        kernel-only elsewhere, and none at address 0. */
    static method BootPageTable() returns (km: map<nat, Pte>)
      ensures BootMapping(km)
    {
      km := map[];
      var v := 0;
      while v < NPAGES
        invariant v <= NPAGES
        invariant forall u | u in km :: 0 < u < v
        invariant forall u | 0 < u < v :: u in km && km[u] == Pte(u, true, u >= PROC_START_PAGE || u == CONSOLE_PAGE)
      {
        if v >= PROC_START_PAGE || v == CONSOLE_PAGE {
          km := Install(km, v, Some(Pte(v, true, true)));
        } else if v != 0 {
          km := Install(km, v, Some(Pte(v, true, false)));
        } else {
          km := Install(km, v, None);
        }
        v := v + 1;
      }
    }

    /** The rest of `kernel()`: the command's program as process 1 when the loader finds
        one (`command` is None otherwise), else the four allocator programs as processes
        1 to 4; then process 1 runs. A panic during setup stops the boot. */
    method Boot(command: Option<Program>, defaults: seq<Program>) returns (o: Outcome)
      requires Valid() && |defaults| == 4 && forall i | 0 <= i < NPROC :: procs[i].state == Free
      modifies this, pages, mem, procs
      ensures Valid()
      ensures o == Ran(1) || o == Panicked
      ensures o == Ran(1) ==> current == 1
      ensures o == Ran(1) && command.Some? ==>
        SetUp(procs[1], command.value, kernelMap) && forall i | 2 <= i < NPROC :: procs[i].state == Free
      ensures o == Ran(1) && command.None? ==>
        (forall i | 1 <= i <= 4 :: SetUp(procs[i], defaults[i - 1], kernelMap))
        && forall i | 5 <= i < NPROC :: procs[i].state == Free
    {
      var ok;
      if command.Some? {
        ok := ProcessSetup(1, command.value);
      } else {
        ok := ProcessSetup(1, defaults[0]);
        if ok {
          ok := ProcessSetup(2, defaults[1]);
        }
        if ok {
          ok := ProcessSetup(3, defaults[2]);
        }
        if ok {
          ok := ProcessSetup(4, defaults[3]);
        }
      }
      if !ok {
        return Panicked;
      }
      o := Run(1);
    }

    // -------------------------------------------------------------------------
    // Process setup

    /** `process_setup`: a fresh root over a copy of the kernel's low mappings, a fresh
        zeroed frame for every page of every loadable segment (writable as the segment
        is), a fresh stack page at the top of the address space, and the slot made
        runnable at the program's entry. Counts only grow, by at least the new table's
        references; the root and every page of the process area are Fresh frames. Any null `kalloc` (its `memset` faults in the kernel) and any failed
        `vmiter::map` (it asserts) is a panic; the slot is then left as it was. */
    method ProcessSetup(pid: nat, prog: Program) returns (ok: bool)
      requires Valid() && pid < NPROC && procs[pid].state == Free
      modifies pages, mem, procs
      ensures Valid()
      ensures forall f | 0 <= f < NPAGES :: pages[f] >= old(pages[f])
      ensures !ok ==> procs[..] == old(procs[..])
      ensures ok ==>
        procs[..] == old(procs[..])[pid := procs[pid]] && procs[pid].pid == pid
        && SetUp(procs[pid], prog, kernelMap)
        && forall f | 0 <= f < NPAGES :: pages[f] >= old(pages[f]) + Released(procs[pid].pt.value, f)
      ensures ok ==> Fresh(procs[pid].pt.value.root, procs[pid].pt.value.entries, old(pages[..]), pages[..], mem[..])
    {
      ghost var s, base := procs[..], pages[..];
      // init_process
      var p := procs[pid].(regs := InitRegs);
      var root, m;
      ok, root, m := BuildTable(prog, base);
      if !ok {
        return;
      }
      p := p.(regs := p.regs.(rip := prog.entry, rsp := MEMSIZE_VIRTUAL), state := Runnable, pt := Some(PageTable(root, m)));
      procs[pid] := p;
      TableSet(s, pid, p);
      CoversAdd(base, pages[..], s, pid, p);
    }

    /** The page table `process_setup` builds for prog, with the counts before it in base. */
    method BuildTable(prog: Program, ghost base: seq<int>) returns (ok: bool, root: nat, m: map<nat, Pte>)
      requires Sized() && base == pages[..] && forall f | 0 <= f < NPAGES :: 0 <= base[f]
      modifies pages, mem
      ensures forall f | 0 <= f < NPAGES :: pages[f] >= old(pages[f])
      ensures ok ==>
        Bounded(root, m, base, pages[..]) && InRange(PageTable(root, m)) && Loaded(m, kernelMap, prog.segments)
        && Fresh(root, m, base, pages[..], mem[..])
    {
      FirstFreeFits(pages[..], allocatable, 0);
      root := Kalloc(PAGESIZE);
      m := map[];
      if root == 0 {
        return false, root, m;
      }
      mem[root] := ZeroFill;
      ok, m := CopyKernelMappings();
      if !ok {
        return;
      }
      BoundedStart(root, m, base, pages[..]);
      LaidStart(m, kernelMap);
      assert Fresh(root, m, base, pages[..], mem[..]);
      var segs := prog.segments;
      ok, m := LoadSegments(root, m, segs, base);
      if !ok {
        return;
      }
      var cm := m;
      ok, m := MapFresh(root, cm, STACK_PAGE, true, base);
      if ok {
        LaidStack(cm, kernelMap, segs, m[STACK_PAGE]);
      }
    }

    /** The loop of `process_setup` over the loadable segments, in order. */
    method LoadSegments(root: nat, m: map<nat, Pte>, segs: seq<Segment>, ghost base: seq<int>)
        returns (ok: bool, m': map<nat, Pte>)
      requires Sized() && Agrees(m, kernelMap, []) && Bounded(root, m, base, pages[..]) && InRange(PageTable(root, m))
      requires Fresh(root, m, base, pages[..], mem[..])
      modifies pages, mem
      ensures forall f | 0 <= f < NPAGES :: pages[f] >= old(pages[f])
      ensures ok ==> Agrees(m', kernelMap, segs) && Fresh(root, m', base, pages[..], mem[..])
      ensures Bounded(root, m', base, pages[..]) && InRange(PageTable(root, m'))
    {
      m' := m;
      var i := 0;
      assert segs[..0] == [];
      while i < |segs|
        invariant i <= |segs| && Agrees(m', kernelMap, segs[..i]) && Fresh(root, m', base, pages[..], mem[..])
        invariant Bounded(root, m', base, pages[..]) && InRange(PageTable(root, m'))
        invariant forall f | 0 <= f < NPAGES :: pages[f] >= old(pages[f])
      {
        ok, m' := MapSegment(root, m', segs, i, base);
        if !ok {
          return;
        }
        i := i + 1;
      }
      assert segs[..i] == segs;
      ok := true;
    }

    /** The pages of segment i: from the page of its address while the page's address
        is below the segment's end, each a fresh zeroed frame mapped user-accessible and
        writable as the segment is. */
    method MapSegment(root: nat, m: map<nat, Pte>, segs: seq<Segment>, i: nat, ghost base: seq<int>)
        returns (ok: bool, m': map<nat, Pte>)
      requires Sized() && i < |segs| && Agrees(m, kernelMap, segs[..i])
      requires Bounded(root, m, base, pages[..]) && InRange(PageTable(root, m))
      requires Fresh(root, m, base, pages[..], mem[..])
      modifies pages, mem
      ensures forall f | 0 <= f < NPAGES :: pages[f] >= old(pages[f])
      ensures ok ==> Agrees(m', kernelMap, segs[..i + 1]) && Fresh(root, m', base, pages[..], mem[..])
      ensures Bounded(root, m', base, pages[..]) && InRange(PageTable(root, m'))
    {
      var g := segs[i];
      LaidSegment(m, kernelMap, segs[..i], g);
      m' := m;
      var v := g.va / PAGESIZE;
      while v * PAGESIZE < g.va + g.size
        invariant g.va / PAGESIZE <= v
        invariant LaidOut(m', kernelMap, segs[..i], g, v) && Fresh(root, m', base, pages[..], mem[..])
        invariant Bounded(root, m', base, pages[..]) && InRange(PageTable(root, m'))
        invariant forall f | 0 <= f < NPAGES :: pages[f] >= old(pages[f])
        decreases g.va + g.size - v * PAGESIZE
      {
        var next;
        ok, next := MapFresh(root, m', v, g.writable, base);
        if !ok {
          return;
        }
        LaidStep(m', kernelMap, segs[..i], g, v, next[v]);
        m' := next;
        v := v + 1;
      }
      LaidEnd(m', kernelMap, segs, i, v);
      ok := true;
    }

    /** One `kalloc`, `memset` to zero and `vmiter::map` of page u with flags P|U, and
        W when writable. Counts only grow; on success (no null frame, no failed map)
        page u maps a fresh frame, which now has count 1 and zeroes, and nothing else changes. */
    method MapFresh(root: nat, m: map<nat, Pte>, u: nat, writable: bool, ghost base: seq<int>)
        returns (ok: bool, m': map<nat, Pte>)
      requires Sized() && Bounded(root, m, base, pages[..]) && InRange(PageTable(root, m))
      requires Fresh(root, m, base, pages[..], mem[..])
      modifies pages, mem
      ensures forall f | 0 <= f < NPAGES :: pages[f] >= old(pages[f])
      ensures Bounded(root, m', base, pages[..]) && InRange(PageTable(root, m'))
      ensures ok ==>
        u in m' && m' == m[u := Pte(m'[u].frame, writable, true)] && 0 < m'[u].frame < NPAGES
        && old(pages[m'[u].frame]) == 0 && pages[..] == old(pages[..])[m'[u].frame := 1]
        && mem[..] == old(mem[..])[m'[u].frame := ZeroFill]
      ensures ok ==> Fresh(root, m', base, pages[..], mem[..])
    {
      ghost var before := pages[..];
      m' := m;
      FirstFreeFits(pages[..], allocatable, 0);
      var f := Kalloc(PAGESIZE);
      if f == 0 {
        return false, m;
      }
      mem[f] := ZeroFill;
      var e := Pte(f, writable, true);
      BoundedFresh(root, m, base, before, u, e);
      FreshMap(root, m, base, before, old(mem[..]), u, e);
      ok, m' := TryMap(m, u, Some(e));
    }
  }

  /** The process table after the trap entry saved regs into slot c. */
  function Saved(s: seq<Proc>, c: nat, regs: Regs): (t: seq<Proc>)
    requires c < |s|
    ensures |t| == |s| && t[c].regs == regs
  {
    s[c := s[c].(regs := regs)]
  }
}
