/**
 * Values of the WeensyOS kernel (pset3/kernel.cc): its memory-layout
 * constants, page tables held as maps from virtual page numbers to page-table
 * entries, process descriptors, and the bookkeeping that relates the kernel's
 * per-frame reference counts to the frames that live processes hold.
 *
 * The constants are the values of the WeensyOS headers (kernel.hh, lib.hh),
 * which are not part of this model. Addresses are handled as page numbers:
 * virtual page v stands for address v * PAGESIZE and frame f for physical
 * address f * PAGESIZE, so the null pointer is frame 0.
 */
module KernelMemory {
  import opened Common

  const PAGESIZE: nat := 4096
  const MEMSIZE_PHYSICAL: nat := 0x20_0000
  const MEMSIZE_VIRTUAL: nat := 0x30_0000
  const PROC_START_ADDR: nat := 0x10_0000
  const CONSOLE_ADDR: nat := 0xB_8000
  const NPROC: nat := 16

  /** MEMSIZE_PHYSICAL / PAGESIZE: the number of physical frames, the length of `pages`. */
  const NPAGES: nat := 512
  /** MEMSIZE_VIRTUAL / PAGESIZE. */
  const VPAGES: nat := 768
  /** PROC_START_ADDR / PAGESIZE: the first page of the process area. */
  const PROC_START_PAGE: nat := 256
  /** CONSOLE_ADDR / PAGESIZE. */
  const CONSOLE_PAGE: nat := 184
  /** The page of the stack, at MEMSIZE_VIRTUAL - PAGESIZE. */
  const STACK_PAGE: nat := VPAGES - 1
  /** One past the last page `exit_proc` visits: its loop runs while va <= MEMSIZE_VIRTUAL. */
  const EXIT_END: nat := VPAGES + 1

  const SYSCALL_GETPID: nat := 1
  const SYSCALL_YIELD: nat := 2
  const SYSCALL_PANIC: nat := 3
  const SYSCALL_PAGE_ALLOC: nat := 4
  const SYSCALL_FORK: nat := 5
  const SYSCALL_EXIT: nat := 6

  datatype State = Free | Runnable | Broken

  /** The saved registers the model reads or writes; the rest of `regstate` travels with them unseen. */
  datatype Regs = Regs(rax: nat, rdi: nat, rip: nat, rsp: nat)

  /** Registers as `init_process` leaves them. */
  const InitRegs := Regs(0, 0, 0, 0)

  /** A present page-table entry: PTE_P is implied, PTE_W and PTE_U are the two flags. */
  datatype Pte = Pte(frame: nat, writable: bool, user: bool)

  /** A process page table: the root frame and the present mappings by virtual page number. */
  datatype PageTable = PageTable(root: nat, entries: map<nat, Pte>)

  /** A process descriptor; `pt` is None when the `pagetable` pointer is null. */
  datatype Proc = Proc(pid: nat, state: State, regs: Regs, pt: Option<PageTable>)

  /** Abstract contents of one frame: all 0xCC, all zero, or anything else. */
  datatype Content = Int3Fill | ZeroFill | Data(tag: int)

  /** A loadable segment as the program loader presents it. */
  datatype Segment = Segment(va: nat, size: nat, writable: bool)

  datatype Program = Program(segments: seq<Segment>, entry: nat)

  /** An exception as `exception` decodes it from `reg_intno` and `reg_errcode`. */
  datatype Trap = TimerInterrupt | PageFault(user: bool) | OtherTrap(intno: nat)

  /** How a trap handler ends: returning a value to the current process, running a
      process, spinning forever with nothing runnable, or a kernel panic. */
  datatype Outcome = Returned(value: int) | Ran(pid: nat) | Idle | Panicked

  /** `vmiter::map(pa, perm)` on a map: a present entry replaces, a non-present one removes. */
  function Install(m: map<nat, Pte>, v: nat, e: Option<Pte>): map<nat, Pte>
  {
    if e.Some? then m[v := e.value] else m - {v}
  }

  // ---------------------------------------------------------------------------
  // The boot page table

  /** The rule `kernel()` uses for the kernel page table below MEMSIZE_PHYSICAL:
      identity mapped, user-accessible from PROC_START_ADDR and at the console,
      kernel-only elsewhere, and page 0 absent. */
  ghost predicate BootMapping(km: map<nat, Pte>)
  {
    (forall v | v in km :: 0 < v < NPAGES)
    && forall v | 0 < v < NPAGES ::
         v in km && km[v] == Pte(v, true, v >= PROC_START_PAGE || v == CONSOLE_PAGE)
  }

  // ---------------------------------------------------------------------------
  // Reference-count bookkeeping

  /** 1 when page v maps frame f, else 0. */
  function MapsAt(m: map<nat, Pte>, v: nat, f: nat): nat
  {
    if v in m && m[v].frame == f then 1 else 0
  }

  /** How many pages lo .. hi-1 map frame f. */
  function Uses(m: map<nat, Pte>, lo: nat, hi: nat, f: nat): nat
    decreases hi - lo
  {
    if lo >= hi then 0 else MapsAt(m, lo, f) + Uses(m, lo + 1, hi, f)
  }

  /** How many times `exit_proc` hands frame f to `kfree` for table t: once per page
      present from PROC_START_ADDR through MEMSIZE_VIRTUAL, and once more for the root. */
  function Released(t: PageTable, f: nat): nat
  {
    Uses(t.entries, PROC_START_PAGE, EXIT_END, f) + (if t.root == f then 1 else 0)
  }

  /** The references to frame f a descriptor accounts for: those of its table unless the slot is free. */
  function Holds(p: Proc, f: nat): nat
  {
    if p.state == Free || p.pt.None? then 0 else Released(p.pt.value, f)
  }

  /** The references to frame f of all descriptors of a table. */
  function Refs(s: seq<Proc>, f: nat): nat
  {
    if |s| == 0 then 0 else Refs(s[..|s| - 1], f) + Holds(s[|s| - 1], f)
  }

  /** Every frame a table hands to `kfree` is a real, non-null frame. */
  ghost predicate InRange(t: PageTable)
  {
    0 < t.root < NPAGES
    && forall v | v in t.entries && PROC_START_PAGE <= v < EXIT_END :: 0 < t.entries[v].frame < NPAGES
  }

  /** No count is negative, and each covers the references of the table s. */
  ghost predicate Covers(pages: seq<int>, s: seq<Proc>)
  {
    forall f | 0 <= f < |pages| :: 0 <= pages[f] && Refs(s, f) <= pages[f]
  }

  /** Installing e at page v changes the uses of frame f in a range by exactly the old and new frame at v. */
  lemma {:induction false} UsesInstall(m: map<nat, Pte>, v: nat, e: Pte, lo: nat, hi: nat, f: nat)
    ensures Uses(m[v := e], lo, hi, f) + (if lo <= v < hi then MapsAt(m, v, f) else 0)
         == Uses(m, lo, hi, f) + (if lo <= v < hi && e.frame == f then 1 else 0)
    decreases hi - lo
  {
    if lo < hi {
      if lo == v {
        UsesAgree(m[v := e], m, lo + 1, hi, f);
      } else {
        UsesInstall(m, v, e, lo + 1, hi, f);
      }
    }
  }

  /** Two maps that agree on a range use every frame equally there. */
  lemma {:induction false} UsesAgree(m: map<nat, Pte>, n: map<nat, Pte>, lo: nat, hi: nat, f: nat)
    requires forall v | lo <= v < hi :: (v in m <==> v in n) && (v in m ==> m[v] == n[v])
    ensures Uses(m, lo, hi, f) == Uses(n, lo, hi, f)
    decreases hi - lo
  {
    if lo < hi {
      UsesAgree(m, n, lo + 1, hi, f);
    }
  }

  /** A map with no page at or above lo uses no frame from lo on. */
  lemma {:induction false} UsesNone(m: map<nat, Pte>, lo: nat, hi: nat, f: nat)
    requires forall v | v in m :: v < lo
    ensures Uses(m, lo, hi, f) == 0
    decreases hi - lo
  {
    if lo < hi {
      UsesNone(m, lo + 1, hi, f);
    }
  }

  /** Every page mapped in a range counts as a use of its frame. */
  lemma {:induction false} UsesIn(m: map<nat, Pte>, v: nat, lo: nat, hi: nat)
    requires lo <= v < hi && v in m
    ensures Uses(m, lo, hi, m[v].frame) >= 1
    decreases hi - lo
  {
    if lo < v {
      UsesIn(m, v, lo + 1, hi);
    }
  }

  /** Two different pages of a range that map one frame are two uses of it. */
  lemma {:induction false} UsesTwo(m: map<nat, Pte>, a: nat, b: nat, lo: nat, hi: nat)
    requires lo <= a < hi && lo <= b < hi && a != b && a in m && b in m && m[a].frame == m[b].frame
    ensures Uses(m, lo, hi, m[a].frame) >= 2
    decreases hi - lo
  {
    if lo == a {
      UsesIn(m, b, lo + 1, hi);
    } else if lo == b {
      UsesIn(m, a, lo + 1, hi);
    } else {
      UsesTwo(m, a, b, lo + 1, hi);
    }
  }

  /** A frame with count 1 that a table of the process area maps at page u, where the
      count covers the table's references over a base of no references, is the table's
      alone: no other page of it maps the frame, it is not the root, and no descriptor
      covered by base held it. */
  lemma Exclusive(t: PageTable, u: nat, base: seq<int>, pages: seq<int>, s: seq<Proc>)
    requires u in t.entries && PROC_START_PAGE <= u < EXIT_END && |base| == NPAGES && |pages| == NPAGES
    requires var f := t.entries[u].frame;
      f < NPAGES && base[f] == 0 && pages[f] == 1 && pages[f] >= base[f] + Released(t, f)
    requires Covers(base, s)
    ensures var f := t.entries[u].frame;
      f != t.root && Refs(s, f) == 0
      && forall w | w in t.entries && PROC_START_PAGE <= w < EXIT_END && w != u :: t.entries[w].frame != f
  {
    var f := t.entries[u].frame;
    UsesIn(t.entries, u, PROC_START_PAGE, EXIT_END);
    forall w | w in t.entries && PROC_START_PAGE <= w < EXIT_END && w != u ensures t.entries[w].frame != f {
      if t.entries[w].frame == f {
        UsesTwo(t.entries, u, w, PROC_START_PAGE, EXIT_END);
      }
    }
  }

  /** Replacing one descriptor changes the references by exactly its old and new holdings. */
  lemma {:induction false} RefsUpdate(s: seq<Proc>, i: nat, p: Proc, f: nat)
    requires i < |s|
    ensures Refs(s[i := p], f) + Holds(s[i], f) == Refs(s, f) + Holds(p, f)
    decreases |s|
  {
    var n := |s| - 1;
    var t := s[i := p];
    if i == n {
      assert t[..n] == s[..n];
    } else {
      assert t[..n] == s[..n][i := p];
      RefsUpdate(s[..n], i, p, f);
    }
  }

  /** A descriptor's holdings are among the references. */
  lemma HoldsIn(s: seq<Proc>, i: nat, f: nat)
    requires i < |s|
    ensures Holds(s[i], f) <= Refs(s, f)
  {
    RefsUpdate(s, i, s[i].(state := Free), f);
  }

  /** The process table's shape: each slot knows its own pid, and every live slot
      owns a table of real frames. */
  ghost predicate Table(s: seq<Proc>)
  {
    |s| == NPROC
    && forall i | 0 <= i < |s| ::
         s[i].pid == i && (s[i].state != Free ==> s[i].pt.Some? && InRange(s[i].pt.value))
  }

  /** A descriptor fit for slot i keeps the table's shape. */
  lemma TableSet(s: seq<Proc>, i: nat, p: Proc)
    requires Table(s) && i < |s| && p.pid == i && (p.state != Free ==> p.pt.Some? && InRange(p.pt.value))
    ensures Table(s[i := p])
  {
  }

  /** Replacing a descriptor by one with the same holdings (both slots free, or both
      live over the same table) keeps every count covering. */
  lemma CoversKeep(pages: seq<int>, s: seq<Proc>, i: nat, p: Proc)
    requires Covers(pages, s) && i < |s|
    requires (p.state == Free && s[i].state == Free) || (p.state != Free && s[i].state != Free && p.pt == s[i].pt)
    ensures Covers(pages, s[i := p])
  {
    forall f | 0 <= f < |pages| ensures Refs(s[i := p], f) == Refs(s, f) {
      RefsUpdate(s, i, p, f);
    }
  }

  /** A free slot given table t, with every count raised by at least t's references. */
  lemma CoversAdd(base: seq<int>, pages: seq<int>, s: seq<Proc>, i: nat, p: Proc)
    requires Covers(base, s) && i < |s| && s[i].state == Free && p.state != Free && p.pt.Some?
    requires |pages| == |base| && forall f | 0 <= f < |base| :: pages[f] >= base[f] + Released(p.pt.value, f)
    ensures Covers(pages, s[i := p])
  {
    forall f | 0 <= f < |pages| ensures Refs(s[i := p], f) == Refs(s, f) + Released(p.pt.value, f) {
      RefsUpdate(s, i, p, f);
    }
  }

  /** A live descriptor's references are covered by the counts. */
  lemma HeldCovered(pages: seq<int>, s: seq<Proc>, i: nat)
    requires Covers(pages, s) && i < |s| && s[i].state != Free && s[i].pt.Some?
    ensures forall f | 0 <= f < |pages| :: Released(s[i].pt.value, f) <= pages[f]
  {
    forall f | 0 <= f < |pages| ensures Released(s[i].pt.value, f) <= pages[f] {
      HoldsIn(s, i, f);
    }
  }

  /** A live slot freed after its table's references were released from the counts. */
  lemma CoversRemove(base: seq<int>, pages: seq<int>, s: seq<Proc>, i: nat, p: Proc)
    requires Covers(base, s) && i < |s| && s[i].state != Free && s[i].pt.Some? && p.state == Free
    requires |pages| == |base| && forall f | 0 <= f < |base| :: pages[f] + Released(s[i].pt.value, f) == base[f]
    ensures Covers(pages, s[i := p])
  {
    forall f | 0 <= f < |pages| ensures Refs(s[i := p], f) + Released(s[i].pt.value, f) == Refs(s, f) {
      RefsUpdate(s, i, p, f);
    }
  }

  /** A fresh frame (count 0 before, 1 now) mapped at page v of a live slot's table:
      whatever v mapped before loses a reference, the new frame gains one. */
  lemma CoversMap(base: seq<int>, pages: seq<int>, s: seq<Proc>, i: nat, v: nat, e: Pte)
    requires Covers(base, s) && i < |s| && s[i].state != Free && s[i].pt.Some?
    requires e.frame < |base| && base[e.frame] == 0 && pages == base[e.frame := 1]
    ensures Covers(pages, s[i := Mapped(s[i], v, e)])
  {
    forall f | 0 <= f < |pages| ensures Refs(s[i := Mapped(s[i], v, e)], f) <= pages[f] {
      RefsUpdate(s, i, Mapped(s[i], v, e), f);
      UsesInstall(s[i].pt.value.entries, v, e, PROC_START_PAGE, EXIT_END, f);
    }
  }

  /** Descriptor p with page v of its table remapped to e. */
  function Mapped(p: Proc, v: nat, e: Pte): Proc
    requires p.pt.Some?
  {
    p.(pt := Some(p.pt.value.(entries := p.pt.value.entries[v := e])))
  }

  // ---------------------------------------------------------------------------
  // The physical-page allocator's choice

  /** The lowest frame at or above `from` that is allocatable and has count 0, or 0 (null). */
  function FirstFree(pages: seq<int>, allocatable: set<nat>, from: nat): (f: nat)
    ensures f == 0 || from <= f < |pages|
    decreases |pages| - from
  {
    if from >= |pages| then 0
    else if from in allocatable && pages[from] == 0 then from
    else FirstFree(pages, allocatable, from + 1)
  }

  /** FirstFree is a first-fit search: it finds the lowest free allocatable frame,
      and it fails exactly when there is none. */
  lemma {:induction false} FirstFreeFits(pages: seq<int>, allocatable: set<nat>, from: nat)
    requires 0 !in allocatable
    ensures var f := FirstFree(pages, allocatable, from);
      (f == 0 <==> forall g | from <= g < |pages| && g in allocatable :: pages[g] != 0)
      && (f != 0 ==> from <= f < |pages| && f in allocatable && pages[f] == 0
                     && forall g | from <= g < f && g in allocatable :: pages[g] != 0)
    decreases |pages| - from
  {
    if from < |pages| && !(from in allocatable && pages[from] == 0) {
      FirstFreeFits(pages, allocatable, from + 1);
    }
  }

  /** What `syscall_page_alloc(addr)` does, from counts p0, contents m0 and table s0
      with c current, to p1, m1 and s1 when it ends with o. An address outside the
      process area or not page aligned, or no free frame, gives -1 and changes nothing.
      Otherwise the first free frame gets count 1 and zeroes, and is mapped writable
      and user-accessible at the address (0), unless that mapping fails, which panics. */
  ghost predicate PageAllocated(addr: nat, allocatable: set<nat>, c: nat, p0: seq<int>, p1: seq<int>,
                                m0: seq<Content>, m1: seq<Content>, s0: seq<Proc>, s1: seq<Proc>, o: Outcome)
  {
    |p0| == NPAGES && |m0| == NPAGES && |s0| == NPROC && c < NPROC
    && var f := FirstFree(p0, allocatable, 0);
       if addr < PROC_START_ADDR || addr >= MEMSIZE_VIRTUAL || addr % PAGESIZE != 0 || f == 0 then
         o == Returned(-1) && p1 == p0 && m1 == m0 && s1 == s0
       else
         p1 == p0[f := 1] && m1 == m0[f := ZeroFill] && s0[c].pt.Some?
         && ((o == Returned(0) && s1 == s0[c := Mapped(s0[c], addr / PAGESIZE, Pte(f, true, true))])
             || (o == Panicked && s1 == s0))
  }

  // ---------------------------------------------------------------------------
  // The scheduler's circular order

  /** The slot k steps after c in circular order. */
  function Slot(c: nat, k: nat): nat
  {
    (c + k) % NPROC
  }

  /** How many steps after c the circular scan reaches p; a full circle for p == c. */
  function Distance(c: nat, p: nat): nat
    requires c < NPROC
  {
    if p > c then p - c else p + NPROC - c
  }

  /** Stepping once more is `(pid + 1) % NPROC`. */
  lemma SlotNext(c: nat, k: nat)
    requires c < NPROC
    ensures Slot(c, 0) == c && Slot(c, k + 1) == (Slot(c, k) + 1) % NPROC
  {
    var q := (c + k) / NPROC;
    assert c + k == q * NPROC + Slot(c, k);
    assert c + k + 1 == q * NPROC + (Slot(c, k) + 1);
    if Slot(c, k) + 1 == NPROC {
      assert c + k + 1 == (q + 1) * NPROC;
    }
  }

  /** Every slot is reached within one circle, at its distance. */
  lemma DistanceReaches(c: nat, p: nat)
    requires c < NPROC && p < NPROC
    ensures 1 <= Distance(c, p) <= NPROC && Slot(c, Distance(c, p)) == p
  {
  }

  /** The slot reached after k steps lies at distance k. */
  lemma DistanceOfSlot(c: nat, k: nat)
    requires c < NPROC && 1 <= k <= NPROC
    ensures Slot(c, k) < NPROC && Distance(c, Slot(c, k)) == k
  {
  }

  /** The first runnable slot `schedule` meets from step k of its circle on, or Idle
      when steps k .. NPROC meet none. */
  function Scan(s: seq<Proc>, c: nat, k: nat): Outcome
    requires |s| == NPROC
    decreases NPROC + 1 - k
  {
    if k > NPROC then Idle
    else if s[Slot(c, k)].state == Runnable then Ran(Slot(c, k))
    else Scan(s, c, k + 1)
  }

  /** The process `schedule` runs after slot c: the scan over one full circle. */
  function Pick(s: seq<Proc>, c: nat): Outcome
    requires |s| == NPROC
  {
    Scan(s, c, 1)
  }

  /** Scan stops at the first runnable step, and is Idle exactly when there is none. */
  lemma {:induction false} ScanFinds(s: seq<Proc>, c: nat, k: nat)
    requires |s| == NPROC && c < NPROC && 1 <= k
    ensures var o := Scan(s, c, k);
      (o.Ran? || o.Idle?)
      && (o.Idle? <==> forall j | k <= j <= NPROC :: s[Slot(c, j)].state != Runnable)
      && (o.Ran? ==> o.pid < NPROC && s[o.pid].state == Runnable && k <= Distance(c, o.pid) <= NPROC
                     && forall j | k <= j < Distance(c, o.pid) :: s[Slot(c, j)].state != Runnable)
    decreases NPROC + 1 - k
  {
    if k <= NPROC {
      if s[Slot(c, k)].state != Runnable {
        ScanFinds(s, c, k + 1);
      } else {
        DistanceOfSlot(c, k);
      }
    }
  }

  /** Round robin: the process picked after c is runnable and no slot nearer to c in
      circular order is; nothing is picked exactly when no slot is runnable. c itself
      comes last. */
  lemma PickNearest(s: seq<Proc>, c: nat)
    requires |s| == NPROC && c < NPROC
    ensures Pick(s, c).Ran? || Pick(s, c).Idle?
    ensures Pick(s, c).Idle? <==> forall p | 0 <= p < NPROC :: s[p].state != Runnable
    ensures Pick(s, c).Ran? ==>
      Pick(s, c).pid < NPROC && s[Pick(s, c).pid].state == Runnable
      && forall q | 0 <= q < NPROC && Distance(c, q) < Distance(c, Pick(s, c).pid) :: s[q].state != Runnable
  {
    ScanFinds(s, c, 1);
    forall p | 0 <= p < NPROC
      ensures 1 <= Distance(c, p) <= NPROC && s[Slot(c, Distance(c, p))] == s[p]
    {
      DistanceReaches(c, p);
    }
    if forall p | 0 <= p < NPROC :: s[p].state != Runnable {
      forall j | 1 <= j <= NPROC ensures s[Slot(c, j)].state != Runnable {
        assert Slot(c, j) < NPROC;
      }
    } else {
      var p :| 0 <= p < NPROC && s[p].state == Runnable;
      assert s[Slot(c, Distance(c, p))].state == Runnable;
    }
  }

  // ---------------------------------------------------------------------------
  // What a fork copies

  /** Child entry c duplicates parent entry p: same flags; a writable user page gets a
      different frame holding the same contents, any other page the same frame. */
  ghost predicate Duplicate(p: Pte, c: Pte, mem: seq<Content>)
  {
    c.writable == p.writable && c.user == p.user
    && if p.writable && p.user
       then c.frame != p.frame && c.frame < |mem| && p.frame < |mem| && mem[c.frame] == mem[p.frame]
       else c.frame == p.frame
  }

  /** Over pages lo .. hi-1 the child maps exactly the parent's pages, each duplicated. */
  ghost predicate DuplicatedRange(pm: map<nat, Pte>, cm: map<nat, Pte>, mem: seq<Content>, lo: nat, hi: nat)
  {
    forall v | lo <= v < hi :: (v in cm <==> v in pm) && (v in pm ==> Duplicate(pm[v], cm[v], mem))
  }

  /** The kernel's mappings below PROC_START_ADDR, copied as they are. */
  ghost predicate KernelPart(cm: map<nat, Pte>, km: map<nat, Pte>)
  {
    forall v | 0 <= v < PROC_START_PAGE :: (v in cm <==> v in km) && (v in cm ==> cm[v] == km[v])
  }

  /** The table a successful fork builds for the child of a parent mapping pm: the
      kernel's low mappings, a duplicate of every present parent page of the process
      area, and nothing from MEMSIZE_VIRTUAL on. */
  ghost predicate Forked(pm: map<nat, Pte>, cm: map<nat, Pte>, km: map<nat, Pte>, mem: seq<Content>)
  {
    KernelPart(cm, km)
    && DuplicatedRange(pm, cm, mem, PROC_START_PAGE, VPAGES)
    && forall v | v in cm :: v < VPAGES
  }

  /** The child's table cm keeps the kernel part cm0 and maps nothing else below v. */
  ghost predicate Keys(cm: map<nat, Pte>, cm0: map<nat, Pte>, v: nat)
  {
    (forall k | k in cm0 :: k in cm && cm[k] == cm0[k])
    && forall k | k in cm :: k < v && (k < PROC_START_PAGE ==> k in cm0)
  }

  /** Pages PROC_START_PAGE .. v-1 are duplicated, and the frames on both sides have
      positive counts. */
  ghost predicate Copied(pm: map<nat, Pte>, cm: map<nat, Pte>, mem: seq<Content>, pages: seq<int>, v: nat)
  {
    DuplicatedRange(pm, cm, mem, PROC_START_PAGE, v)
    && forall k | PROC_START_PAGE <= k < v && k in pm ::
         pm[k].frame < |pages| && 0 < pages[pm[k].frame] && cm[k].frame < |pages| && 0 < pages[cm[k].frame]
  }

  /** The counts are exactly base plus the references of the child's table, plus one
      for a copy `extra` allocated but not mapped (0 for none). */
  ghost predicate Counted(root: nat, cm: map<nat, Pte>, base: seq<int>, pages: seq<int>, extra: nat)
  {
    |base| == NPAGES && |pages| == NPAGES
    && forall f | 0 <= f < NPAGES ::
         pages[f] == base[f] + Released(PageTable(root, cm), f) + (if f == extra && f != 0 then 1 else 0)
  }

  /** What `sys_fork` does, from counts p0, contents m0 and table s0 with c current,
      to p1, m1 and s1 when it returns r. Success: the lowest free slot from 1 holds a
      runnable child with the parent's registers and rax 0, over a Forked table whose
      writable user pages are Private copies, and every count rose by the child's
      references. Failure: -1 with the counts as they were and no live slot touched;
      with no free slot nothing changes at all. Either way a frame that was in use
      keeps its contents. */
  ghost predicate Forking(km: map<nat, Pte>, c: nat, p0: seq<int>, p1: seq<int>, m0: seq<Content>, m1: seq<Content>,
                         s0: seq<Proc>, s1: seq<Proc>, r: int)
  {
    |p0| == NPAGES && |p1| == NPAGES && |m0| == NPAGES && |m1| == NPAGES && |s0| == NPROC && |s1| == NPROC
    && c < NPROC && s0[c].pt.Some?
    && (r == -1 || 0 < r < NPROC)
    && (forall f | 0 <= f < NPAGES && p0[f] != 0 :: m1[f] == m0[f])
    && (r == -1 ==> p1 == p0 && forall i | 0 <= i < NPROC ::
          s1[i].state == s0[i].state && (s0[i].state != Free ==> s1[i] == s0[i]))
    && ((forall i | 1 <= i < NPROC :: s0[i].state != Free) ==> r == -1 && s1 == s0 && m1 == m0)
    && (0 < r < NPROC ==>
          s0[r].state == Free && (forall i | 1 <= i < r :: s0[i].state != Free)
          && s1[r].pt.Some? && s1 == s0[r := Proc(r, Runnable, s0[c].regs.(rax := 0), s1[r].pt)]
          && Forked(s0[c].pt.value.entries, s1[r].pt.value.entries, km, m1)
          && Private(s0[c].pt.value.entries, s1[r].pt.value.entries, p0, p1, VPAGES)
          && forall f | 0 <= f < NPAGES :: p1[f] == p0[f] + Released(s1[r].pt.value, f))
  }

  /** Every writable user page of pm below v has its own copy in cm: a frame that had
      no references before the fork (base) and now has exactly one (pages). */
  ghost predicate Private(pm: map<nat, Pte>, cm: map<nat, Pte>, base: seq<int>, pages: seq<int>, v: nat)
  {
    forall k | PROC_START_PAGE <= k < v && k in pm && pm[k].writable && pm[k].user ::
      k in cm && cm[k].frame < |base| && cm[k].frame < |pages| && base[cm[k].frame] == 0 && pages[cm[k].frame] == 1
  }

  /** A successful fork from a live parent gives each writable user page a copy of its
      own: the copy holds what the parent's page held before the fork, no other page of
      the child maps it, it is not the child's root, and no process held it before. */
  lemma ForkedCopies(km: map<nat, Pte>, c: nat, p0: seq<int>, p1: seq<int>, m0: seq<Content>, m1: seq<Content>,
                     s0: seq<Proc>, s1: seq<Proc>, r: int, v: nat)
    requires Forking(km, c, p0, p1, m0, m1, s0, s1, r) && 0 < r < NPROC
    requires Table(s0) && Covers(p0, s0) && s0[c].state != Free
    requires var pm := s0[c].pt.value.entries; PROC_START_PAGE <= v < VPAGES && v in pm && pm[v].writable && pm[v].user
    ensures var pm, t := s0[c].pt.value.entries, s1[r].pt.value;
      v in t.entries && t.entries[v].frame < NPAGES && pm[v].frame < NPAGES
      && m1[t.entries[v].frame] == m0[pm[v].frame]
      && t.entries[v].frame != t.root && Refs(s0, t.entries[v].frame) == 0
      && forall w | w in t.entries && PROC_START_PAGE <= w < EXIT_END && w != v :: t.entries[w].frame != t.entries[v].frame
  {
    var pm, t := s0[c].pt.value.entries, s1[r].pt.value;
    var f, g := t.entries[v].frame, pm[v].frame;
    assert Duplicate(pm[v], t.entries[v], m1);
    UsesIn(pm, v, PROC_START_PAGE, EXIT_END);
    HoldsIn(s0, c, g);
    Exclusive(t, v, p0, p1, s0);
  }

  /** The state of the fork walk before page v. */
  ghost predicate Walk(pm: map<nat, Pte>, root: nat, cm: map<nat, Pte>, cm0: map<nat, Pte>, v: nat,
                       base: seq<int>, pages: seq<int>, mem: seq<Content>)
  {
    |mem| == NPAGES && PROC_START_PAGE <= v <= VPAGES
    && Keys(cm, cm0, v) && Copied(pm, cm, mem, pages, v) && Private(pm, cm, base, pages, v)
    && InRange(PageTable(root, cm)) && Counted(root, cm, base, pages, 0)
  }

  /** What the walk may assume about the parent: its frames are real and among the
      references that base covers. */
  ghost predicate Parent(pm: map<nat, Pte>, s: seq<Proc>, base: seq<int>)
  {
    |base| == NPAGES && Covers(base, s)
    && (forall v | v in pm && PROC_START_PAGE <= v < EXIT_END :: 0 < pm[v].frame < NPAGES)
    && forall f | 0 <= f < NPAGES :: Uses(pm, PROC_START_PAGE, EXIT_END, f) <= Refs(s, f)
  }

  /** A live descriptor of a covered table may be forked from. */
  lemma ParentHolds(s: seq<Proc>, i: nat, base: seq<int>)
    requires i < |s| && s[i].state != Free && s[i].pt.Some? && InRange(s[i].pt.value)
    requires |base| == NPAGES && Covers(base, s)
    ensures Parent(s[i].pt.value.entries, s, base)
  {
    forall f | 0 <= f < NPAGES ensures Uses(s[i].pt.value.entries, PROC_START_PAGE, EXIT_END, f) <= Refs(s, f) {
      HoldsIn(s, i, f);
    }
  }

  /** The walk's final keys over a complete kernel part give a complete kernel part. */
  lemma KeysKernel(cm: map<nat, Pte>, cm0: map<nat, Pte>, km: map<nat, Pte>)
    requires Keys(cm, cm0, VPAGES) && KernelPart(cm0, km)
    ensures KernelPart(cm, km) && forall v | v in cm :: v < VPAGES
  {
  }

  /** A parent's page has a positive count from the start of the walk on. */
  lemma ParentFrameUsed(pm: map<nat, Pte>, s: seq<Proc>, base: seq<int>, v: nat)
    requires Parent(pm, s, base) && v in pm && PROC_START_PAGE <= v < VPAGES
    ensures 0 < pm[v].frame < NPAGES && base[pm[v].frame] > 0
  {
    UsesIn(pm, v, PROC_START_PAGE, EXIT_END);
  }

  /** Mapping a page of the process area not mapped before adds one reference to its frame. */
  lemma InstallCounts(root: nat, cm: map<nat, Pte>, base: seq<int>, pages: seq<int>, v: nat, e: Pte)
    requires Counted(root, cm, base, pages, 0) && PROC_START_PAGE <= v < EXIT_END && v !in cm && e.frame < NPAGES
    ensures Counted(root, cm[v := e], base, pages[e.frame := pages[e.frame] + 1], 0)
  {
    forall f | 0 <= f < NPAGES
      ensures Released(PageTable(root, cm[v := e]), f) == Released(PageTable(root, cm), f) + (if f == e.frame then 1 else 0)
    {
      UsesInstall(cm, v, e, PROC_START_PAGE, EXIT_END, f);
    }
  }

  /** A fresh frame f with count 0 that was allocated but not mapped. */
  lemma CountExtra(root: nat, cm: map<nat, Pte>, base: seq<int>, pages: seq<int>, f: nat)
    requires Counted(root, cm, base, pages, 0) && 0 < f < NPAGES && pages[f] == 0
    ensures Counted(root, cm, base, pages[f := 1], f)
  {
  }

  /** The walk's first state: nothing of the process area yet, and the root counted. */
  lemma WalkStart(pm: map<nat, Pte>, root: nat, cm0: map<nat, Pte>, base: seq<int>, pages: seq<int>, mem: seq<Content>)
    requires |base| == NPAGES && |pages| == NPAGES && |mem| == NPAGES && 0 < root < NPAGES
    requires forall v | v in cm0 :: v < PROC_START_PAGE
    requires forall f | 0 <= f < NPAGES :: pages[f] == base[f] + (if f == root then 1 else 0)
    ensures Walk(pm, root, cm0, cm0, PROC_START_PAGE, base, pages, mem)
  {
    forall f ensures Released(PageTable(root, cm0), f) == (if f == root then 1 else 0) {
      UsesNone(cm0, PROC_START_PAGE, EXIT_END, f);
    }
  }

  /** A page the parent does not map is skipped. */
  lemma WalkSkip(pm: map<nat, Pte>, root: nat, cm: map<nat, Pte>, cm0: map<nat, Pte>, v: nat,
                 base: seq<int>, pages: seq<int>, mem: seq<Content>)
    requires Walk(pm, root, cm, cm0, v, base, pages, mem) && v < VPAGES && v !in pm
    ensures Walk(pm, root, cm, cm0, v + 1, base, pages, mem)
  {
  }

  /** A writable user page gets the fresh frame f, whose count was 0, holding a copy
      of the parent's contents. */
  lemma WalkCopy(pm: map<nat, Pte>, root: nat, cm: map<nat, Pte>, cm0: map<nat, Pte>, v: nat,
                 s: seq<Proc>, base: seq<int>, pages: seq<int>, mem: seq<Content>, f: nat)
    requires Walk(pm, root, cm, cm0, v, base, pages, mem) && Parent(pm, s, base)
    requires v < VPAGES && v in pm && pm[v].writable && pm[v].user
    requires 0 < f < NPAGES && pages[f] == 0
    ensures pm[v].frame != f
    ensures Walk(pm, root, cm[v := pm[v].(frame := f)], cm0, v + 1, base, pages[f := 1], mem[f := mem[pm[v].frame]])
  {
    ParentFrameUsed(pm, s, base, v);
    var e := pm[v].(frame := f);
    assert pages[pm[v].frame] > 0;
    CopiedCopy(pm, cm, mem, pages, v, f);
    InstallCounts(root, cm, base, pages, v, e);
    assert pages[f := 1] == pages[e.frame := pages[e.frame] + 1];
  }

  lemma CopiedCopy(pm: map<nat, Pte>, cm: map<nat, Pte>, mem: seq<Content>, pages: seq<int>, v: nat, f: nat)
    requires Copied(pm, cm, mem, pages, v) && |mem| == |pages| && v !in cm
    requires v in pm && pm[v].writable && pm[v].user && pm[v].frame < |pages| && pages[pm[v].frame] > 0
    requires f < |pages| && pages[f] == 0
    ensures Copied(pm, cm[v := pm[v].(frame := f)], mem[f := mem[pm[v].frame]], pages[f := 1], v + 1)
  {
  }

  /** Any other present page is mapped to the parent's frame, whose count rises by one. */
  lemma WalkShare(pm: map<nat, Pte>, root: nat, cm: map<nat, Pte>, cm0: map<nat, Pte>, v: nat,
                  s: seq<Proc>, base: seq<int>, pages: seq<int>, mem: seq<Content>)
    requires Walk(pm, root, cm, cm0, v, base, pages, mem) && Parent(pm, s, base)
    requires v < VPAGES && v in pm && !(pm[v].writable && pm[v].user)
    ensures pm[v].frame < NPAGES
    ensures Walk(pm, root, cm[v := pm[v]], cm0, v + 1, base, pages[pm[v].frame := pages[pm[v].frame] + 1], mem)
  {
    ParentFrameUsed(pm, s, base, v);
    CopiedShare(pm, cm, mem, pages, v);
    InstallCounts(root, cm, base, pages, v, pm[v]);
  }

  lemma CopiedShare(pm: map<nat, Pte>, cm: map<nat, Pte>, mem: seq<Content>, pages: seq<int>, v: nat)
    requires Copied(pm, cm, mem, pages, v) && v !in cm
    requires v in pm && !(pm[v].writable && pm[v].user) && pm[v].frame < |pages| && pages[pm[v].frame] > 0
    ensures Copied(pm, cm[v := pm[v]], mem, pages[pm[v].frame := pages[pm[v].frame] + 1], v + 1)
  {
  }

  // ---------------------------------------------------------------------------
  // What `process_setup` maps

  /** Page u is one `process_setup` maps for segment g: it starts at the page of g.va
      and goes on while the page's address is below g.va + g.size. */
  predicate InSegment(g: Segment, u: nat)
  {
    g.va / PAGESIZE <= u && u * PAGESIZE < g.va + g.size
  }

  /** The writability of the last segment of segs that maps page u (later segments
      remap a page earlier ones mapped), or None when none does. */
  function Layout(segs: seq<Segment>, u: nat): Option<bool>
    decreases |segs|
  {
    if |segs| == 0 then None
    else if InSegment(segs[|segs| - 1], u) then Some(segs[|segs| - 1].writable)
    else Layout(segs[..|segs| - 1], u)
  }

  /** Layout names the last segment that maps u, returned as i, and None means no
      segment does. */
  lemma {:induction false} LayoutLast(segs: seq<Segment>, u: nat) returns (i: nat)
    ensures Layout(segs, u).None? <==> forall j | 0 <= j < |segs| :: !InSegment(segs[j], u)
    ensures Layout(segs, u).Some? ==>
      i < |segs| && InSegment(segs[i], u) && segs[i].writable == Layout(segs, u).value
      && forall j | i < j < |segs| :: !InSegment(segs[j], u)
    decreases |segs|
  {
    i := 0;
    if |segs| > 0 {
      var n := |segs| - 1;
      var pre := segs[..n];
      assert forall j | 0 <= j < n :: segs[j] == pre[j];
      if InSegment(segs[n], u) {
        i := n;
      } else {
        i := LayoutLast(pre, u);
      }
    }
  }

  /** Page u of table m is as planned: w is the writability a segment gave it, and with
      no segment it is the kernel's mapping below PROC_START_ADDR or absent. */
  ghost predicate Placed(m: map<nat, Pte>, km: map<nat, Pte>, w: Option<bool>, u: nat)
  {
    (u in m <==> w.Some? || (u < PROC_START_PAGE && u in km))
    && (u in m ==> if w.Some? then m[u].user && m[u].writable == w.value else m[u] == km[u])
  }

  /** The plan after segments segs and the pages of segment g below v. */
  function Planned(segs: seq<Segment>, g: Segment, v: nat, u: nat): Option<bool>
  {
    if InSegment(g, u) && u < v then Some(g.writable) else Layout(segs, u)
  }

  /** Every page of m is as segments segs, then the pages of g below v, lay it out. */
  ghost predicate LaidOut(m: map<nat, Pte>, km: map<nat, Pte>, segs: seq<Segment>, g: Segment, v: nat)
  {
    forall u: nat :: Placed(m, km, Planned(segs, g, v, u), u)
  }

  /** Every page of m is as segments segs lay it out. */
  ghost predicate Agrees(m: map<nat, Pte>, km: map<nat, Pte>, segs: seq<Segment>)
  {
    forall u: nat :: Placed(m, km, Layout(segs, u), u)
  }

  /** The table `process_setup` builds: the stack page writable and user-accessible,
      and every other page as the segments lay it out over the kernel's low mappings. */
  ghost predicate Loaded(m: map<nat, Pte>, km: map<nat, Pte>, segs: seq<Segment>)
  {
    STACK_PAGE in m && m[STACK_PAGE].writable && m[STACK_PAGE].user
    && forall u: nat | u != STACK_PAGE :: Placed(m, km, Layout(segs, u), u)
  }

  /** The counts grew from base, which has none negative, by at least the references
      of table (root, m). */
  ghost predicate Bounded(root: nat, m: map<nat, Pte>, base: seq<int>, pages: seq<int>)
  {
    |base| == NPAGES && |pages| == NPAGES
    && forall f | 0 <= f < NPAGES :: 0 <= base[f] && pages[f] >= base[f] + Released(PageTable(root, m), f)
  }

  /** Table (root, m) owns fresh frames: the root and every page from PROC_START_ADDR on
      map a frame that had count 0 in base and has count 1 now, and those pages hold
      zeroes. */
  ghost predicate Fresh(root: nat, m: map<nat, Pte>, base: seq<int>, pages: seq<int>, mem: seq<Content>)
  {
    |base| == NPAGES && |pages| == NPAGES && |mem| == NPAGES
    && 0 < root < NPAGES && base[root] == 0 && pages[root] == 1
    && forall u | u in m && PROC_START_PAGE <= u ::
         0 < m[u].frame < NPAGES && base[m[u].frame] == 0 && pages[m[u].frame] == 1 && mem[m[u].frame] == ZeroFill
  }

  /** A page of the process area in a Fresh table over base is the table's alone: no
      other page maps its frame, the frame is not the root, and no descriptor covered
      by base held it. */
  lemma FreshExclusive(root: nat, m: map<nat, Pte>, base: seq<int>, pages: seq<int>, mem: seq<Content>,
                       s: seq<Proc>, u: nat)
    requires Fresh(root, m, base, pages, mem) && Bounded(root, m, base, pages) && Covers(base, s)
    requires u in m && PROC_START_PAGE <= u < EXIT_END
    ensures m[u].frame != root && Refs(s, m[u].frame) == 0
    ensures forall w | w in m && PROC_START_PAGE <= w < EXIT_END && w != u :: m[w].frame != m[u].frame
  {
    Exclusive(PageTable(root, m), u, base, pages, s);
  }

  /** Page u mapped to a frame f of count 0, which then gets count 1 and zeroes, keeps
      the table fresh. */
  lemma FreshMap(root: nat, m: map<nat, Pte>, base: seq<int>, pages: seq<int>, mem: seq<Content>, u: nat, e: Pte)
    requires Fresh(root, m, base, pages, mem) && Bounded(root, m, base, pages)
    requires 0 < e.frame < NPAGES && pages[e.frame] == 0
    ensures Fresh(root, m[u := e], base, pages[e.frame := 1], mem[e.frame := ZeroFill])
  {
  }

  /** Mapping a fresh frame (count 0 before, 1 now) keeps the counts bounded. */
  lemma BoundedFresh(root: nat, m: map<nat, Pte>, base: seq<int>, pages: seq<int>, u: nat, e: Pte)
    requires Bounded(root, m, base, pages) && 0 < e.frame < NPAGES && pages[e.frame] == 0
    ensures Bounded(root, m[u := e], base, pages[e.frame := 1])
  {
    forall f | 0 <= f < NPAGES
      ensures Released(PageTable(root, m[u := e]), f) <= Released(PageTable(root, m), f) + (if f == e.frame then 1 else 0)
    {
      UsesInstall(m, u, e, PROC_START_PAGE, EXIT_END, f);
    }
  }

  /** The copied kernel part is the plan before any segment. */
  lemma LaidStart(m: map<nat, Pte>, km: map<nat, Pte>)
    requires KernelPart(m, km) && forall u | u in m :: u < PROC_START_PAGE
    ensures Agrees(m, km, [])
  {
  }

  /** A segment starts from the plan of the segments before it. */
  lemma LaidSegment(m: map<nat, Pte>, km: map<nat, Pte>, segs: seq<Segment>, g: Segment)
    requires Agrees(m, km, segs)
    ensures LaidOut(m, km, segs, g, g.va / PAGESIZE)
  {
    forall u: nat ensures Placed(m, km, Planned(segs, g, g.va / PAGESIZE, u), u) {
      assert Placed(m, km, Layout(segs, u), u);
    }
  }

  /** Mapping page v of segment g with its flags extends the plan by v. */
  lemma LaidStep(m: map<nat, Pte>, km: map<nat, Pte>, segs: seq<Segment>, g: Segment, v: nat, e: Pte)
    requires LaidOut(m, km, segs, g, v) && InSegment(g, v) && e.writable == g.writable && e.user
    ensures LaidOut(m[v := e], km, segs, g, v + 1)
  {
    var m', w := m[v := e], v + 1;
    forall u: nat ensures Placed(m', km, Planned(segs, g, w, u), u) {
      if u != v {
        assert Placed(m, km, Planned(segs, g, v, u), u);
        assert Planned(segs, g, w, u) == Planned(segs, g, v, u);
      }
    }
  }

  /** Past its last page, segment g is part of the layout. */
  lemma LaidEnd(m: map<nat, Pte>, km: map<nat, Pte>, segs: seq<Segment>, i: nat, v: nat)
    requires i < |segs| && LaidOut(m, km, segs[..i], segs[i], v) && v * PAGESIZE >= segs[i].va + segs[i].size
    ensures Agrees(m, km, segs[..i + 1])
  {
    var upto := segs[..i + 1];
    assert upto[..i] == segs[..i];
    forall u: nat ensures Placed(m, km, Layout(upto, u), u) {
      assert Placed(m, km, Planned(segs[..i], segs[i], v, u), u);
      if InSegment(segs[i], u) {
        assert u * PAGESIZE < v * PAGESIZE;
      }
    }
  }

  /** The stack page mapped last completes the table. */
  lemma LaidStack(m: map<nat, Pte>, km: map<nat, Pte>, segs: seq<Segment>, e: Pte)
    requires Agrees(m, km, segs) && e.writable && e.user
    ensures Loaded(m[STACK_PAGE := e], km, segs)
  {
    forall u: nat | u != STACK_PAGE ensures Placed(m[STACK_PAGE := e], km, Layout(segs, u), u) {
      assert Placed(m, km, Layout(segs, u), u);
    }
  }

  /** Descriptor p runs program prog as `process_setup` leaves it: runnable, entered at
      the program's entry with the stack pointer at the top of the stack page, over a
      Loaded table. */
  ghost predicate SetUp(p: Proc, prog: Program, km: map<nat, Pte>)
  {
    p.state == Runnable && p.regs == InitRegs.(rip := prog.entry, rsp := MEMSIZE_VIRTUAL)
    && p.pt.Some? && Loaded(p.pt.value.entries, km, prog.segments)
  }

  /** A fresh root over the copied kernel part bounds the counts. */
  lemma BoundedStart(root: nat, m: map<nat, Pte>, base: seq<int>, pages: seq<int>)
    requires |base| == NPAGES && 0 < root < NPAGES && base[root] == 0 && pages == base[root := 1]
    requires forall f | 0 <= f < NPAGES :: 0 <= base[f]
    requires forall u | u in m :: u < PROC_START_PAGE
    ensures Bounded(root, m, base, pages)
  {
    forall f | 0 <= f < NPAGES ensures Released(PageTable(root, m), f) == (if f == root then 1 else 0) {
      UsesNone(m, PROC_START_PAGE, EXIT_END, f);
    }
  }

  /** A table of free slots holds no references. */
  lemma {:induction false} RefsFree(s: seq<Proc>, f: nat)
    requires forall i | 0 <= i < |s| :: s[i].state == Free
    ensures Refs(s, f) == 0
    decreases |s|
  {
    if |s| > 0 {
      RefsFree(s[..|s| - 1], f);
    }
  }
}
