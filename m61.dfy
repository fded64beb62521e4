/**
 * The `m61` debugging allocator: a wrapper around the system allocator
 * that counts allocations, brackets the heap, keeps the live blocks on a
 * list, checks every free against that bookkeeping, and keeps Misra-Gries
 * style "heavy hitter" byte counters per allocation site.
 */
module DebugMalloc {
  import opened Common

  /** Requests of `UINT_MAX` bytes or more fail outright. */
  const UINT_MAX: int := 0xFFFF_FFFF
  /** `ULONG_MAX`, the starting value of the lower heap bracket. */
  const ULONG_MAX: int := TWO_TO_64 - 1
  /** `sizeof(meta_data) + sizeof(meta_data) % 16`: six 8-byte fields, 48 bytes. */
  const META_SIZE: nat := 48
  /** `sizeof(magic_footer)`: the string "checkout" and its terminating zero. */
  const FOOTER_SIZE: nat := 9
  /** The number of slots of each heavy-hitter table. */
  const SLOTS: nat := 6

  type u64 = x: int | 0 <= x < TWO_TO_64

  /** An allocation site: the `file` pointer (0 standing for null) and the `line`. */
  datatype Loc = Loc(file: nat, line: int)

  /** One heavy-hitter slot: the site it counts for and its counter. */
  datatype Hitter = Hitter(loc: Loc, count: nat)

  /** A zero-initialised slot. */
  const Unused := Hitter(Loc(0, 0), 0)

  /** A live block: its payload address, its requested size and where it was allocated. */
  datatype Block = Block(addr: nat, size: nat, loc: Loc)

  /** What `m61_free` does with a pointer: nothing, release it, or abort with one of its diagnoses. */
  datatype FreeOutcome = Ignored | Released | NotInHeap | NotAllocated | DoubleFree | WildWrite

  /** What `m61_free` reads in the header in front of a pointer. */
  datatype Tag = AllocatedTag | FreedTag | OtherTag

  /** The record `m61_get_statistics` fills in. */
  datatype Statistics = Statistics(
    nactive: nat, activeSize: nat, ntotal: nat, totalSize: nat,
    nfail: nat, failSize: nat, heapMin: nat, heapMax: nat)

  // ---------------------------------------------------------------------
  // The heavy-hitter tables
  // ---------------------------------------------------------------------

  /** Whether slot `e` is counting for `loc`: a nonzero counter with that site. */
  predicate Tracks(e: Hitter, loc: Loc) {
    e.count != 0 && e.loc == loc
  }

  /** The first slot counting for `loc`, or -1. */
  function FirstMatch(h: seq<Hitter>, loc: Loc): (k: int)
    ensures -1 <= k < |h|
    ensures k >= 0 ==> Tracks(h[k], loc) && forall j | 0 <= j < k :: !Tracks(h[j], loc)
    ensures k == -1 ==> forall j | 0 <= j < |h| :: !Tracks(h[j], loc)
  {
    if h == [] then -1
    else
      var k := FirstMatch(h[..|h| - 1], loc);
      if k >= 0 then k else if Tracks(h[|h| - 1], loc) then |h| - 1 else -1
  }

  /** The last slot whose counter is zero, or -1. */
  function LastZero(h: seq<Hitter>): (z: int)
    ensures -1 <= z < |h|
    ensures z >= 0 ==> h[z].count == 0 && forall j | z < j < |h| :: h[j].count != 0
    ensures z == -1 ==> forall j | 0 <= j < |h| :: h[j].count != 0
  {
    if h == [] then -1
    else if h[|h| - 1].count == 0 then |h| - 1
    else LastZero(h[..|h| - 1])
  }

  /** The smallest nonzero counter below `sz` (or `sz` itself) and the first slot holding it (or -1). */
  datatype MinSlot = MinSlot(size: nat, slot: int)

  function MinBelow(h: seq<Hitter>, sz: nat): (r: MinSlot)
    ensures r.size <= sz && -1 <= r.slot < |h|
    ensures forall j | 0 <= j < |h| && h[j].count != 0 :: r.size <= h[j].count
    ensures r.slot == -1 ==> r.size == sz
    ensures r.slot >= 0 ==>
              h[r.slot].count == r.size && r.size != 0 && r.size < sz &&
              forall j | 0 <= j < r.slot && h[j].count != 0 :: r.size < h[j].count
  {
    if h == [] then MinSlot(sz, -1)
    else
      var r := MinBelow(h[..|h| - 1], sz);
      var c := h[|h| - 1].count;
      if c != 0 && r.size > c then MinSlot(c, |h| - 1) else r
  }

  /** Every counter lowered by `m`, slot `k` (if any) taken over by `loc` with `sz - m`. */
  function Decrease(h: seq<Hitter>, m: nat, k: int, loc: Loc, sz: nat): (r: seq<Hitter>)
    requires m <= sz && forall j | 0 <= j < |h| :: m <= h[j].count
    ensures |r| == |h|
  {
    seq(|h|, j requires 0 <= j < |h| =>
      if j == k then Hitter(loc, sz - m) else Hitter(h[j].loc, h[j].count - m))
  }

  /**
   * The byte table after an allocation of `sz` bytes at `loc`: a slot already
   * counting for `loc` gains `sz`; otherwise the last empty slot takes
   * `(loc, sz)`; otherwise every counter drops by the smallest one (or by
   * `sz`, if that is smaller), and the first smallest slot, when smaller
   * than `sz`, is handed to `loc` with what is left of `sz`.
   */
  function HeavySpec(h: seq<Hitter>, loc: Loc, sz: nat): (r: seq<Hitter>)
  {
    var f := FirstMatch(h, loc);
    if f >= 0 then h[f := Hitter(loc, h[f].count + sz)]
    else
      var z := LastZero(h);
      if z >= 0 then h[z := Hitter(loc, sz)]
      else
        var ms := MinBelow(h, sz);
        Decrease(h, ms.size, ms.slot, loc, sz)
  }

  /** The frequency table after an allocation at `loc`: only a slot already counting for `loc` changes. */
  function FreqSpec(f: seq<Hitter>, loc: Loc): seq<Hitter> {
    var k := FirstMatch(f, loc);
    if k >= 0 then f[k := Hitter(f[k].loc, f[k].count + 1)] else f
  }

  /** The sum of the counters. */
  function Total(h: seq<Hitter>): nat {
    if h == [] then 0 else Total(h[..|h| - 1]) + h[|h| - 1].count
  }

  lemma {:induction false} TotalUpdate(h: seq<Hitter>, i: nat, e: Hitter)
    requires i < |h|
    ensures Total(h[i := e]) + h[i].count == Total(h) + e.count
    decreases |h|
  {
    var n := |h| - 1;
    assert h[i := e][..n] == if i == n then h[..n] else h[..n][i := e];
    if i < n {
      TotalUpdate(h[..n], i, e);
    }
  }

  lemma MulNonNegative(n: nat, m: nat)
    ensures 0 <= n * m
  {
  }

  lemma MulSucc(n: nat, m: nat)
    ensures (n + 1) * m == n * m + m
  {
  }

  lemma {:induction false} DecreaseTotal(h: seq<Hitter>, m: nat, k: int, loc: Loc, sz: nat)
    requires m <= sz && forall j | 0 <= j < |h| :: m <= h[j].count
    ensures Total(Decrease(h, m, k, loc, sz)) + |h| * m == Total(h) + (if 0 <= k < |h| then sz - h[k].count else 0)
    decreases |h|
  {
    if h != [] {
      var n := |h| - 1;
      var d := Decrease(h, m, k, loc, sz);
      assert d[..n] == Decrease(h[..n], m, k, loc, sz);
      DecreaseTotal(h[..n], m, k, loc, sz);
      assert Total(d) == Total(d[..n]) + d[n].count;
      assert Total(h) == Total(h[..n]) + h[n].count;
      MulSucc(n, m);
      if k == n {
        assert d[n].count == sz - m;
      } else {
        assert d[n].count == h[n].count - m;
        assert 0 <= k < |h| <==> 0 <= k < n;
        if 0 <= k < n {
          assert h[..n][k] == h[k];
        }
      }
    }
  }

  /**
   * The counters never hold more bytes than were allocated: an update adds
   * at most `sz` to their sum, and exactly `sz` when a slot was already
   * counting for `loc` or an empty slot took it.
   */
  lemma HeavyTotal(h: seq<Hitter>, loc: Loc, sz: nat)
    ensures var r := HeavySpec(h, loc, sz);
            Total(r) <= Total(h) + sz &&
            (FirstMatch(h, loc) >= 0 || LastZero(h) >= 0 ==> Total(r) == Total(h) + sz)
  {
    var f := FirstMatch(h, loc);
    var z := LastZero(h);
    var r := HeavySpec(h, loc, sz);
    if f >= 0 {
      assert r == h[f := Hitter(loc, h[f].count + sz)];
      TotalUpdate(h, f, Hitter(loc, h[f].count + sz));
    } else if z >= 0 {
      assert r == h[z := Hitter(loc, sz)];
      TotalUpdate(h, z, Hitter(loc, sz));
    } else {
      var ms := MinBelow(h, sz);
      assert r == Decrease(h, ms.size, ms.slot, loc, sz);
      DecreaseTotal(h, ms.size, ms.slot, loc, sz);
      if 0 <= ms.slot {
        assert h[ms.slot].count == ms.size;
      }
      MulNonNegative(|h|, ms.size);
      assert Total(r) + |h| * ms.size <= Total(h) + sz;
    }
  }

  /**
   * After a nonzero allocation at `loc` some slot counts for `loc`, unless
   * every slot was busy with another site holding at least `sz` bytes; then
   * every counter drops by `sz` and the sites stay as they were.
   */
  lemma HeavyTracks(h: seq<Hitter>, loc: Loc, sz: nat)
    requires sz > 0
    ensures var r := HeavySpec(h, loc, sz);
            |r| == |h| &&
            if FirstMatch(h, loc) >= 0 || LastZero(h) >= 0 || MinBelow(h, sz).slot >= 0
            then exists i | 0 <= i < |r| :: Tracks(r[i], loc)
            else forall i | 0 <= i < |r| :: r[i].loc == h[i].loc && r[i].count + sz == h[i].count
  {
    var f := FirstMatch(h, loc);
    var z := LastZero(h);
    var r := HeavySpec(h, loc, sz);
    if f >= 0 {
      assert Tracks(r[f], loc);
    } else if z >= 0 {
      assert Tracks(r[z], loc);
    } else if MinBelow(h, sz).slot >= 0 {
      assert Tracks(r[MinBelow(h, sz).slot], loc);
    }
  }

  /** No two slots count for the same site. */
  predicate DistinctSites(h: seq<Hitter>) {
    forall i, j | 0 <= i < j < |h| && h[i].count != 0 && h[j].count != 0 :: h[i].loc != h[j].loc
  }

  /** The update never makes two slots count for the same site. */
  lemma HeavyDistinct(h: seq<Hitter>, loc: Loc, sz: nat)
    requires DistinctSites(h)
    ensures DistinctSites(HeavySpec(h, loc, sz))
  {
    var f := FirstMatch(h, loc);
    var z := LastZero(h);
    var r := HeavySpec(h, loc, sz);
    if f < 0 && z < 0 {
      var k := MinBelow(h, sz).slot;
      assert forall i | 0 <= i < |r| && i != k :: r[i].loc == h[i].loc && (r[i].count != 0 ==> h[i].count != 0);
    }
  }

  /** A table with every counter zero never changes: nothing creates a frequency entry. */
  lemma FreqIdle(f: seq<Hitter>, loc: Loc)
    requires forall i | 0 <= i < |f| :: f[i].count == 0
    ensures FreqSpec(f, loc) == f
  {
    assert FirstMatch(f, loc) == -1;
  }

  // ---------------------------------------------------------------------
  // The report
  // ---------------------------------------------------------------------

  /** A slot as a report prints it: only when its site has a non-null file. */
  function Shown(e: Hitter): multiset<Hitter> {
    if e.loc.file != 0 then multiset{e} else multiset{}
  }

  /** The slots a report prints. */
  function Printed(h: seq<Hitter>): multiset<Hitter> {
    if h == [] then multiset{} else Printed(h[..|h| - 1]) + Shown(h[|h| - 1])
  }

  /** Counters in non-increasing order. */
  predicate NonIncreasing(r: seq<Hitter>) {
    forall a, b | 0 <= a < b < |r| :: r[a].count >= r[b].count
  }

  lemma {:induction false} PrintedUpdate(h: seq<Hitter>, i: nat, e: Hitter)
    requires i < |h|
    ensures Printed(h[i := e]) + Shown(h[i]) == Printed(h) + Shown(e)
    decreases |h|
  {
    var n := |h| - 1;
    if i < n {
      assert h[i := e][..n] == h[..n][i := e];
      PrintedUpdate(h[..n], i, e);
      assert h[..n][i] == h[i] && h[i := e][n] == h[n];
      var a, b := Printed(h[..n][i := e]), Printed(h[..n]);
      assert a + Shown(h[i]) == b + Shown(e);
      assert Printed(h[i := e]) == a + Shown(h[n]);
      assert Printed(h) == b + Shown(h[n]);
      assert (a + Shown(h[n])) + Shown(h[i]) == (a + Shown(h[i])) + Shown(h[n]);
      assert (b + Shown(e)) + Shown(h[n]) == (b + Shown(h[n])) + Shown(e);
    } else {
      assert h[i := e][..n] == h[..n];
    }
  }

  /** Moving the last slot into slot `i` and dropping the last one removes slot `i`. */
  lemma PrintedRemove(h: seq<Hitter>, i: nat)
    requires i < |h|
    ensures Printed(h[i := h[|h| - 1]][..|h| - 1]) + Shown(h[i]) == Printed(h)
  {
    var n := |h| - 1;
    var g := h[..n];
    var r := h[i := h[n]][..n];
    assert Printed(h) == Printed(g) + Shown(h[n]);
    if i < n {
      assert r == g[i := h[n]];
      PrintedUpdate(g, i, h[n]);
      assert g[i] == h[i];
      assert Printed(r) + Shown(h[i]) == Printed(g) + Shown(h[n]);
    } else {
      assert r == g;
    }
  }

  /** A counter no larger than the last one extends a non-increasing run. */
  lemma NonIncreasingSnoc(r: seq<Hitter>, e: Hitter)
    requires NonIncreasing(r) && (r != [] ==> e.count <= r[|r| - 1].count)
    ensures NonIncreasing(r + [e])
  {
  }

  /** The first of slots 0 .. n-1 holding the largest counter among them. */
  function MaxIndex(h: seq<Hitter>, n: nat): (k: nat)
    requires 0 < n <= |h|
    ensures k < n
    ensures forall j | 0 <= j < n :: h[j].count <= h[k].count
    ensures forall j | 0 <= j < k :: h[j].count < h[k].count
  {
    if n == 1 then 0
    else
      var k := MaxIndex(h, n - 1);
      if h[k].count < h[n - 1].count then n - 1 else k
  }

  /** The scan for the largest counter among the first `n` slots. */
  method MaxSlot(t: array<Hitter>, n: nat) returns (idx: nat)
    requires 0 < n <= t.Length
    ensures idx == MaxIndex(t[..], n)
  {
    idx := 0;
    var j := 0;
    while j < n
      invariant j <= n
      invariant (j == 0 && idx == 0) || (0 < j && idx == MaxIndex(t[..], j))
    {
      if t[idx].count < t[j].count {
        idx := j;
      }
      j := j + 1;
    }
  }

  /** What the report prints for slot `e`: the slot when its site has a file, else nothing. */
  function Line(e: Hitter): (r: seq<Hitter>)
    ensures multiset(r) == Shown(e)
  {
    if e.loc.file != 0 then [e] else []
  }

  /** The slots the selection passes over the first `i` slots of `h` print, in order. */
  function Selected(h: seq<Hitter>, i: nat): (r: seq<Hitter>)
    requires i <= |h|
    ensures |r| <= i
    decreases i
  {
    if i == 0 then []
    else
      var k := MaxIndex(h, i);
      Line(h[k]) + Selected(h[k := h[i - 1]], i - 1)
  }

  /** The table the selection passes over the first `i` slots leave: each pass moves
      the last remaining slot onto the one selected. Slots from `i` on stay. */
  function Scrambled(h: seq<Hitter>, i: nat): (r: seq<Hitter>)
    requires i <= |h|
    ensures |r| == |h| && forall j | i <= j < |h| :: r[j] == h[j]
    decreases i
  {
    if i == 0 then h
    else
      var k := MaxIndex(h, i);
      Scrambled(h[k := h[i - 1]], i - 1)
  }

  /** One selection pass: the report gains what the pass prints, and what is left
      to select and scramble is the table after it. */
  lemma SelectedStep(before: seq<Hitter>, i: nat, shown: seq<Hitter>, report: seq<Hitter>, after: seq<Hitter>)
    requires 0 < i <= |before|
    requires var k := MaxIndex(before, i);
      report == shown + Line(before[k]) && after == before[k := before[i - 1]]
    ensures shown + Selected(before, i) == report + Selected(after, i - 1)
    ensures Scrambled(before, i) == Scrambled(after, i - 1)
  {
    var k := MaxIndex(before, i);
    var rest := Selected(after, i - 1);
    assert Selected(before, i) == Line(before[k]) + rest;
    assert shown + (Line(before[k]) + rest) == (shown + Line(before[k])) + rest;
  }

  /** A table of unused slots is left as it was. */
  lemma {:induction false} ScrambledUnused(h: seq<Hitter>, i: nat)
    requires i <= |h| && forall j | 0 <= j < |h| :: h[j] == Unused
    ensures Scrambled(h, i) == h
    decreases i
  {
    if i > 0 {
      var k := MaxIndex(h, i);
      assert h[k := h[i - 1]] == h;
      ScrambledUnused(h, i - 1);
    }
  }

  /** Every counter left in `rest` is at most the last one reported. */
  predicate Dominates(report: seq<Hitter>, rest: seq<Hitter>) {
    report != [] ==> forall j | 0 <= j < |rest| :: rest[j].count <= report[|report| - 1].count
  }

  /**
   * One selection step over the first `i` slots: the largest counter is taken
   * out and the last of those slots moves into its place.
   */
  method Take(t: array<Hitter>, i: nat) returns (idx: nat, e: Hitter)
    requires 0 < i <= t.Length
    modifies t
    ensures idx == MaxIndex(old(t[..]), i) && e == old(t[..])[idx]
    ensures t[..] == old(t[..])[idx := old(t[..])[i - 1]]
    ensures forall j | 0 <= j < i - 1 :: t[j].count <= e.count
    ensures Printed(t[..i - 1]) + Shown(e) == Printed(old(t[..i]))
  {
    idx := MaxSlot(t, i);
    e := t[idx];
    ghost var before := t[..i];
    t[idx] := t[i - 1];
    assert t[..i - 1] == before[idx := before[i - 1]][..i - 1];
    PrintedRemove(before, idx);
  }

  /** The report after slot `e` is taken out: `e` is printed when it has a site. */
  function Reported(report: seq<Hitter>, e: Hitter): (r: seq<Hitter>)
    ensures multiset(r) == multiset(report) + Shown(e)
  {
    report + Line(e)
  }

  /** Reporting the slot taken out keeps the report in non-increasing order, ahead of every slot left. */
  lemma ReportStep(report: seq<Hitter>, before: seq<Hitter>, after: seq<Hitter>, idx: nat, e: Hitter)
    requires idx < |before| && e == before[idx]
    requires forall j | 0 <= j < |after| :: after[j].count <= e.count
    requires NonIncreasing(report) && Dominates(report, before)
    ensures NonIncreasing(Reported(report, e)) && Dominates(Reported(report, e), after)
  {
    if report != [] {
      assert before[idx].count <= report[|report| - 1].count;
    }
    if e.loc.file != 0 {
      NonIncreasingSnoc(report, e);
    }
  }

  /** Moving `s` from what is left to what is shown keeps the total. */
  lemma Regroup(shown: multiset<Hitter>, s: multiset<Hitter>, before: multiset<Hitter>,
                after: multiset<Hitter>, whole: multiset<Hitter>)
    requires shown + before == whole && after + s == before
    ensures (shown + s) + after == whole
  {
  }

  /** One pass of the report loop: take out the largest of the first `i` slots and report it. */
  method Select(t: array<Hitter>, i: nat, report: seq<Hitter>, ghost whole: multiset<Hitter>)
    returns (next: seq<Hitter>)
    requires 0 < i <= t.Length
    requires NonIncreasing(report) && Dominates(report, t[..i])
    requires multiset(report) + Printed(t[..i]) == whole
    modifies t
    ensures NonIncreasing(next) && Dominates(next, t[..i - 1])
    ensures multiset(next) + Printed(t[..i - 1]) == whole
    ensures var k := MaxIndex(old(t[..]), i);
      next == report + Line(old(t[..])[k]) && t[..] == old(t[..])[k := old(t[..])[i - 1]]
  {
    ghost var before := t[..i];
    var idx, e := Take(t, i);
    ghost var after := t[..i - 1];
    assert forall j | 0 <= j < |after| :: after[j] == t[j];
    ReportStep(report, before, after, idx, e);
    next := Reported(report, e);
    Regroup(multiset(report), Shown(e), Printed(before), Printed(after), whole);
  }

  /**
   * The report over one table of `m61_print_heavy_hitter_report`: a
   * selection of the largest remaining counter, `t.Length` times, each
   * selected slot overwritten with the last remaining one. It prints the
   * selected slots that have a site, largest counter first, and leaves the
   * table as the passes scramble it.
   */
  method SelectReport(t: array<Hitter>) returns (report: seq<Hitter>)
    modifies t
    ensures NonIncreasing(report)
    ensures multiset(report) == Printed(old(t[..]))
    ensures report == Selected(old(t[..]), t.Length) && t[..] == Scrambled(old(t[..]), t.Length)
  {
    report := [];
    var i: nat := t.Length;
    assert t[..i] == old(t[..]);
    ghost var whole := Printed(old(t[..]));
    while i > 0
      invariant i <= t.Length
      invariant NonIncreasing(report) && Dominates(report, t[..i])
      invariant multiset(report) + Printed(t[..i]) == whole
      invariant report + Selected(t[..], i) == Selected(old(t[..]), t.Length)
      invariant Scrambled(t[..], i) == Scrambled(old(t[..]), t.Length)
    {
      ghost var before, shown := t[..], report;
      report := Select(t, i, report, whole);
      SelectedStep(before, i, shown, report, t[..]);
      i := i - 1;
    }
    assert t[..0] == [];
  }

  /** A table none of whose slots has a site has nothing to print. */
  lemma {:induction false} NothingShown(h: seq<Hitter>)
    requires forall i | 0 <= i < |h| :: h[i] == Unused
    ensures Printed(h) == multiset{}
    decreases |h|
  {
    if h != [] {
      NothingShown(h[..|h| - 1]);
    }
  }

  /** So a report over such a table is empty. */
  lemma NothingPrinted(h: seq<Hitter>, report: seq<Hitter>)
    requires forall i | 0 <= i < |h| :: h[i] == Unused
    requires multiset(report) == Printed(h)
    ensures report == []
  {
    NothingShown(h);
    assert |multiset(report)| == |report|;
  }

  // ---------------------------------------------------------------------
  // The allocator
  // ---------------------------------------------------------------------

  /** The sum of the sizes of `bs`. */
  function SumSizes(bs: seq<Block>): nat {
    if bs == [] then 0 else SumSizes(bs[..|bs| - 1]) + bs[|bs| - 1].size
  }

  lemma {:induction false} SumSizesRemove(bs: seq<Block>, k: nat)
    requires k < |bs|
    ensures SumSizes(bs[..k] + bs[k + 1..]) + bs[k].size == SumSizes(bs)
    decreases |bs|
  {
    var n := |bs| - 1;
    if k < n {
      assert (bs[..k] + bs[k + 1..])[..n - 1] == bs[..n][..k] + bs[..n][k + 1..];
      SumSizesRemove(bs[..n], k);
    } else {
      assert bs[..k] + bs[k + 1..] == bs[..n];
    }
  }

  /** The position of the block whose payload is at `p`, or -1. */
  function Find(bs: seq<Block>, p: nat): (k: int)
    ensures -1 <= k < |bs|
    ensures k >= 0 ==> bs[k].addr == p
    ensures k == -1 ==> forall i | 0 <= i < |bs| :: bs[i].addr != p
  {
    if bs == [] then -1
    else if bs[|bs| - 1].addr == p then |bs| - 1
    else Find(bs[..|bs| - 1], p)
  }

  /** `x` rounded up to a multiple of 16. */
  function RoundUp16(x: nat): (r: nat)
    ensures r % 16 == 0 && x <= r < x + 16
  {
    (x + 15) / 16 * 16
  }

  /**
   * The size `m61_calloc` asks `m61_malloc` for, as written: the product
   * `nmemb * sz` in 64-bit arithmetic, or nothing for `nmemb >= UINT_MAX`.
   */
  function CallocRequestAsWritten(nmemb: u64, sz: u64): Option<u64> {
    if nmemb < UINT_MAX then Some((nmemb * sz) % TWO_TO_64) else None
  }

  /** Two elements of 2^63 bytes ask for a block of 0 bytes: the product wraps. */
  lemma CallocWraps()
    ensures CallocRequestAsWritten(2, TWO_TO_64 / 2) == Some(0)
    ensures 2 * (TWO_TO_64 / 2) != 0
  {
  }

  /** The size `m61_calloc` asks for, with an overflowing product refused like a huge `nmemb`. */
  function CallocRequest(nmemb: u64, sz: u64): (r: Option<u64>)
    ensures r.Some? <==> nmemb < UINT_MAX && nmemb * sz < TWO_TO_64
    ensures r.Some? ==> r.value == nmemb * sz
  {
    if nmemb < UINT_MAX && nmemb * sz < TWO_TO_64 then Some(nmemb * sz) else None
  }

  /** Payload addresses strictly increasing along the list. */
  predicate Ascending(bs: seq<Block>) {
    |bs| <= 1 || (Ascending(bs[..|bs| - 1]) && bs[|bs| - 2].addr < bs[|bs| - 1].addr)
  }

  lemma {:induction false} AscendingLess(bs: seq<Block>, i: nat, j: nat)
    requires Ascending(bs) && i < j < |bs|
    ensures bs[i].addr < bs[j].addr
    decreases |bs|
  {
    var n := |bs| - 1;
    if j < n {
      AscendingLess(bs[..n], i, j);
    } else if i < n - 1 {
      AscendingLess(bs[..n], i, n - 1);
    }
  }

  lemma {:induction false} AscendingRemove(bs: seq<Block>, k: nat)
    requires Ascending(bs) && k < |bs|
    ensures Ascending(bs[..k] + bs[k + 1..])
    decreases |bs|
  {
    var n := |bs| - 1;
    var r := bs[..k] + bs[k + 1..];
    if k == n {
      assert r == bs[..n];
    } else if 2 <= n {
      var g := bs[..n];
      AscendingRemove(g, k);
      assert r[..|r| - 1] == g[..k] + g[k + 1..];
      assert r[|r| - 1] == bs[n];
      if k == n - 1 {
        AscendingLess(bs, n - 2, n);
        assert r[|r| - 2] == bs[n - 2];
      } else {
        assert r[|r| - 2] == bs[n - 1];
      }
    }
  }

  /**
   * Where a live block sits: a nonzero 16-aligned payload below the system
   * allocator's next block, inside the bracket `[lo, hi]`, and not freed.
   */
  predicate Sits(b: Block, freed: set<nat>, next: nat, lo: nat, hi: nat) {
    0 < b.addr && b.addr % 16 == 0 && b.addr + b.size < next &&
    b.addr !in freed && lo <= b.addr && b.addr + b.size <= hi
  }

  /**
   * How the blocks lie: live payloads in increasing address order along the
   * list, each sitting as `Sits` says; freed payloads also nonzero,
   * 16-aligned, below `next` and inside the bracket.
   */
  predicate Laid(live: seq<Block>, freed: set<nat>, next: nat, lo: nat, hi: nat) {
    next % 16 == 0 && Ascending(live) &&
    (forall i | 0 <= i < |live| :: Sits(live[i], freed, next, lo, hi)) &&
    (forall a | a in freed :: 0 < a < next && a % 16 == 0 && lo <= a <= hi)
  }

  /** A block carved at `next` lies past every other one; appending it and widening the bracket keeps the layout. */
  lemma LaidAppend(live: seq<Block>, freed: set<nat>, next: nat, lo: nat, hi: nat, sz: nat, loc: Loc)
    requires Laid(live, freed, next, lo, hi)
    ensures var p := next + META_SIZE;
            Find(live, p) == -1 && p !in freed &&
            Laid(live + [Block(p, sz, loc)], freed, RoundUp16(next + (META_SIZE + sz + FOOTER_SIZE)),
                 Min(lo, p), Max(hi, p + sz))
  {
    var p := next + META_SIZE;
    var r := live + [Block(p, sz, loc)];
    assert r[..|live|] == live;
    forall i | 0 <= i < |r|
      ensures Sits(r[i], freed, RoundUp16(next + (META_SIZE + sz + FOOTER_SIZE)), Min(lo, p), Max(hi, p + sz))
    {
      if i < |live| {
        assert r[i] == live[i] && Sits(live[i], freed, next, lo, hi);
      }
    }
    if live != [] {
      assert Sits(live[|live| - 1], freed, next, lo, hi);
    }
  }

  /**
   * What `Place` needs of a block carved at `next`, stated for the values the
   * state takes once the block is in: the layout as `LaidAppend` says, and
   * the sizes.
   */
  lemma PlaceKeepsBooks(live: seq<Block>, freed: set<nat>, next: nat, lo: nat, hi: nat, sz: nat, loc: Loc,
                        live': seq<Block>, next': nat, lo': nat, hi': nat)
    requires Laid(live, freed, next, lo, hi)
    requires live' == live + [Block(next + META_SIZE, sz, loc)]
    requires next' == RoundUp16(next + (META_SIZE + sz + FOOTER_SIZE))
    requires lo' == Min(lo, next + META_SIZE) && hi' == Max(hi, next + META_SIZE + sz)
    ensures var p := next + META_SIZE; p % 16 == 0 && Find(live, p) == -1 && p !in freed
    ensures Laid(live', freed, next', lo', hi') && SumSizes(live') == SumSizes(live) + sz
  {
    LaidAppend(live, freed, next, lo, hi, sz, loc);
    assert live'[..|live|] == live;
  }

  /** Releasing block `k` keeps the layout. */
  lemma LaidRemove(live: seq<Block>, freed: set<nat>, next: nat, lo: nat, hi: nat, k: nat)
    requires Laid(live, freed, next, lo, hi) && k < |live|
    ensures Laid(live[..k] + live[k + 1..], freed + {live[k].addr}, next, lo, hi)
  {
    var r := live[..k] + live[k + 1..];
    var f := freed + {live[k].addr};
    AscendingRemove(live, k);
    forall i | 0 <= i < |r|
      ensures Sits(r[i], f, next, lo, hi)
    {
      var m := if i < k then i else i + 1;
      assert r[i] == live[m] && Sits(live[m], freed, next, lo, hi);
      if m < k {
        AscendingLess(live, m, k);
      } else {
        AscendingLess(live, k, m);
      }
    }
    assert Sits(live[k], freed, next, lo, hi);
  }

  /**
   * The allocator's global state. `live` lists the blocks on the circular
   * list in order from the sentinel's successor; `freed` holds the payload
   * addresses whose header carries the freed tag; `next` is where the
   * system allocator hands out its next block.
   */
  class Heap {
    var mallocCount: nat
    var freeCount: nat
    var failCount: nat
    var activeSize: nat
    var totalSize: nat
    var failSize: u64
    var heapMin: nat
    var heapMax: nat
    var live: seq<Block>
    var freed: set<nat>
    var next: nat
    const hitters: array<Hitter>
    const freqs: array<Hitter>

    /** The counters and the bracket agree with the blocks handed out. */
    predicate Books()
      reads this
    {
      Laid(live, freed, next, heapMin, heapMax) &&
      mallocCount == freeCount + |live| &&
      activeSize == SumSizes(live)
    }

    /** The bookkeeping agrees with the blocks handed out and the frequency table is still zero. */
    predicate Valid()
      reads this, freqs
    {
      hitters.Length == SLOTS && freqs.Length == SLOTS && hitters != freqs &&
      (forall i | 0 <= i < SLOTS :: freqs[i] == Unused) &&
      Books()
    }

    /** The header tag in front of payload address `p`. */
    function TagAt(p: nat): Tag
      reads this
    {
      if Find(live, p) >= 0 then AllocatedTag else if p in freed then FreedTag else OtherTag
    }

    /** The state before the first allocation: `base` is where the system allocator starts. */
    constructor (base: nat)
      requires base % 16 == 0
      ensures Valid() && fresh(hitters) && fresh(freqs)
      ensures live == [] && freed == {} && next == base
      ensures mallocCount == 0 && freeCount == 0 && failCount == 0
      ensures activeSize == 0 && totalSize == 0 && failSize == 0
      ensures heapMin == ULONG_MAX && heapMax == 0
      ensures hitters[..] == seq(SLOTS, _ => Unused) && freqs[..] == seq(SLOTS, _ => Unused)
    {
      mallocCount, freeCount, failCount := 0, 0, 0;
      activeSize, totalSize, failSize := 0, 0, 0;
      heapMin, heapMax := ULONG_MAX, 0;
      live, freed, next := [], {}, base;
      hitters := new Hitter[SLOTS](_ => Unused);
      freqs := new Hitter[SLOTS](_ => Unused);
    }

    /** `base_malloc`: a fresh 16-aligned block of `total` bytes past everything handed out so far. */
    method BaseMalloc(total: nat) returns (block: nat)
      modifies this`next
      ensures block == old(next) && next == RoundUp16(old(next) + total)
    {
      block := next;
      next := RoundUp16(next + total);
    }

    /** The allocation loop over the byte table: update the slot for `loc` as `HeavySpec` says. */
    method HeavyUpdate(loc: Loc, sz: nat)
      requires hitters.Length == SLOTS
      modifies hitters
      ensures hitters[..] == HeavySpec(old(hitters[..]), loc, sz)
    {
      ghost var h := hitters[..];
      var found := false;
      var zeroCnt := -1;
      var minSize: nat := sz;
      var minCounter := -1;
      var i := 0;
      while i < SLOTS
        invariant i <= SLOTS && hitters[..] == h
        invariant forall j | 0 <= j < i :: !Tracks(h[j], loc)
        invariant zeroCnt == LastZero(h[..i])
        invariant MinSlot(minSize, minCounter) == MinBelow(h[..i], sz)
      {
        assert h[..i + 1][..i] == h[..i];
        if hitters[i].count == 0 {
          zeroCnt := i;
        } else {
          if hitters[i].loc == loc {
            hitters[i] := Hitter(loc, hitters[i].count + sz);
            assert FirstMatch(h, loc) == i;
            return;
          }
          if minSize > hitters[i].count {
            minSize := hitters[i].count;
            minCounter := i;
          }
        }
        i := i + 1;
      }
      assert h[..SLOTS] == h;
      if zeroCnt != -1 {
        hitters[zeroCnt] := Hitter(loc, sz);
      } else {
        DecreaseAll(minSize, minCounter, loc, sz);
      }
    }

    /** The replacement loop: every counter drops by `m`, slot `k` going to `loc` with `sz - m`. */
    method DecreaseAll(m: nat, k: int, loc: Loc, sz: nat)
      requires hitters.Length == SLOTS && m <= sz
      requires forall j | 0 <= j < SLOTS :: m <= hitters[j].count
      modifies hitters
      ensures hitters[..] == Decrease(old(hitters[..]), m, k, loc, sz)
    {
      ghost var h := hitters[..];
      ghost var r := Decrease(h, m, k, loc, sz);
      var i := 0;
      while i < SLOTS
        invariant i <= SLOTS
        invariant forall j | 0 <= j < i :: hitters[j] == r[j]
        invariant forall j | i <= j < SLOTS :: hitters[j] == h[j]
      {
        if k == i {
          hitters[i] := Hitter(loc, sz - m);
        } else {
          hitters[i] := Hitter(hitters[i].loc, hitters[i].count - m);
        }
        i := i + 1;
      }
      assert hitters[..] == r;
    }

    /** The allocation loop over the frequency table: a slot already counting for `loc` gains one. */
    method FreqUpdate(loc: Loc)
      requires freqs.Length == SLOTS
      modifies freqs
      ensures freqs[..] == FreqSpec(old(freqs[..]), loc)
    {
      ghost var f := freqs[..];
      var zeroFrq := -1;
      var i := 0;
      while i < SLOTS
        invariant i <= SLOTS && freqs[..] == f
        invariant forall j | 0 <= j < i :: !Tracks(f[j], loc)
      {
        if freqs[i].count == 0 {
          zeroFrq := i;
        } else if freqs[i].loc == loc {
          freqs[i] := Hitter(loc, freqs[i].count + 1);
          assert FirstMatch(f, loc) == i;
          return;
        }
        i := i + 1;
      }
      assert FirstMatch(f, loc) == -1;
    }

    /** Both table loops of a successful `m61_malloc`, the byte table's first. */
    method Tally(loc: Loc, sz: nat)
      requires hitters.Length == SLOTS && freqs.Length == SLOTS && hitters != freqs
      modifies hitters, freqs
      ensures hitters[..] == HeavySpec(old(hitters[..]), loc, sz)
      ensures freqs[..] == FreqSpec(old(freqs[..]), loc)
    {
      HeavyUpdate(loc, sz);
      FreqUpdate(loc);
    }

    /**
     * The bookkeeping half of a successful `m61_malloc`: a fresh block from
     * the system allocator, appended to the live list just before the
     * sentinel, with the counters and the bracket updated.
     */
    method Place(sz: nat, loc: Loc) returns (p: nat)
      requires Books()
      modifies this`next, this`live, this`totalSize, this`activeSize, this`mallocCount, this`heapMin, this`heapMax
      ensures Books()
      ensures p != 0 && p % 16 == 0 && Find(old(live), p) == -1 && p !in freed
      ensures live == old(live) + [Block(p, sz, loc)]
      ensures mallocCount == old(mallocCount) + 1
      ensures activeSize == old(activeSize) + sz && totalSize == old(totalSize) + sz
      ensures heapMin == Min(old(heapMin), p) && heapMax == Max(old(heapMax), p + sz)
    {
      ghost var live0, lo0, hi0 := live, heapMin, heapMax;
      var block := BaseMalloc(META_SIZE + sz + FOOTER_SIZE);
      p := block + META_SIZE;
      live := live + [Block(p, sz, loc)];
      totalSize := totalSize + sz;
      activeSize := activeSize + sz;
      mallocCount := mallocCount + 1;
      if p + sz > heapMax {
        heapMax := p + sz;
      }
      if p < heapMin {
        heapMin := p;
      }
      PlaceKeepsBooks(live0, freed, block, lo0, hi0, sz, loc, live, next, heapMin, heapMax);
    }

    /**
     * The successful half of `m61_malloc`: both table loops and `Place`. The
     * source does the bookkeeping first; the two touch disjoint state, so
     * the order does not change the outcome.
     */
    method Grant(sz: nat, loc: Loc) returns (p: nat)
      requires Valid()
      modifies this, hitters, freqs
      ensures Valid()
      ensures freed == old(freed) && freeCount == old(freeCount)
      ensures failCount == old(failCount) && failSize == old(failSize)
      ensures p != 0 && p % 16 == 0 && Find(old(live), p) == -1 && p !in freed
      ensures live == old(live) + [Block(p, sz, loc)]
      ensures mallocCount == old(mallocCount) + 1
      ensures activeSize == old(activeSize) + sz && totalSize == old(totalSize) + sz
      ensures heapMin == Min(old(heapMin), p) && heapMax == Max(old(heapMax), p + sz)
      ensures hitters[..] == HeavySpec(old(hitters[..]), loc, sz) && freqs[..] == old(freqs[..])
    {
      ghost var f := freqs[..];
      Tally(loc, sz);
      FreqIdle(f, loc);
      assert forall i | 0 <= i < SLOTS :: freqs[i] == f[i];
      p := Place(sz, loc);
    }

    /**
     * `m61_malloc`: a request below `UINT_MAX` bytes gets a fresh block,
     * appended to the live list just before the sentinel, with the
     * counters, the bracket and the byte table updated; a larger request
     * fails and only the failure counters change.
     */
    method Malloc(sz: u64, loc: Loc) returns (p: nat)
      requires Valid()
      modifies this, hitters, freqs
      ensures Valid()
      ensures sz >= UINT_MAX ==>
                p == 0 && failCount == old(failCount) + 1 && failSize == (old(failSize) + sz) % TWO_TO_64 &&
                live == old(live) && freed == old(freed) && next == old(next) &&
                mallocCount == old(mallocCount) && freeCount == old(freeCount) &&
                activeSize == old(activeSize) && totalSize == old(totalSize) &&
                heapMin == old(heapMin) && heapMax == old(heapMax) &&
                hitters[..] == old(hitters[..]) && freqs[..] == old(freqs[..])
      ensures sz < UINT_MAX ==>
                p != 0 && p % 16 == 0 && Find(old(live), p) == -1 && p !in freed &&
                live == old(live) + [Block(p, sz, loc)] && freed == old(freed) &&
                mallocCount == old(mallocCount) + 1 && freeCount == old(freeCount) &&
                activeSize == old(activeSize) + sz && totalSize == old(totalSize) + sz &&
                failCount == old(failCount) && failSize == old(failSize) &&
                heapMin == Min(old(heapMin), p) && heapMax == Max(old(heapMax), p + sz) &&
                hitters[..] == HeavySpec(old(hitters[..]), loc, sz) && freqs[..] == old(freqs[..])
    {
      if sz < UINT_MAX {
        p := Grant(sz, loc);
      } else {
        failCount := failCount + 1;
        failSize := (failSize + sz) % TWO_TO_64;
        p := 0;
      }
    }

    /**
     * The checks of `m61_free`, in its order: null is ignored; a pointer
     * outside the bracket, one that is misaligned or not behind an allocator
     * header, one already freed, and one whose footer was overwritten
     * (`footerIntact` false) are diagnosed; a live block with its footer
     * intact is released. Because freed and live payloads always lie in the
     * bracket 16-aligned, every freed pointer is diagnosed as a double free
     * and exactly the live ones with intact footers are released.
     */
    function Diagnose(p: nat, footerIntact: bool): (o: FreeOutcome)
      requires Books()
      reads this
      ensures p == 0 <==> o == Ignored
      ensures p != 0 && !(heapMin <= p <= heapMax) ==> o == NotInHeap
      ensures p != 0 && heapMin <= p <= heapMax && (p % 16 != 0 || TagAt(p) == OtherTag) ==> o == NotAllocated
      ensures p != 0 && TagAt(p) == FreedTag ==> o == DoubleFree
      ensures TagAt(p) == AllocatedTag ==> o == if footerIntact then Released else WildWrite
      ensures o == Released <==> Find(live, p) >= 0 && footerIntact
    {
      if p == 0 then Ignored
      else if !(heapMin <= p && p <= heapMax) then NotInHeap
      else if p % 16 != 0 || TagAt(p) == OtherTag then NotAllocated
      else if TagAt(p) == FreedTag then DoubleFree
      // A live block's neighbours always point back at it here.
      else if !footerIntact then WildWrite
      else Released
    }

    /**
     * `m61_free`: every diagnosis aborts the program with nothing changed; a
     * live block is released: it leaves the list, the others keeping their
     * order.
     */
    method Free(p: nat, footerIntact: bool) returns (outcome: FreeOutcome)
      requires Valid()
      modifies this`live, this`freed, this`freeCount, this`activeSize
      ensures Valid()
      ensures outcome == old(Diagnose(p, footerIntact))
      ensures outcome != Released ==>
                live == old(live) && freed == old(freed) && freeCount == old(freeCount) && activeSize == old(activeSize)
      ensures outcome == Released ==>
                var k := Find(old(live), p);
                live == old(live)[..k] + old(live)[k + 1..] && freed == old(freed) + {p} &&
                freeCount == old(freeCount) + 1 && activeSize + old(live)[k].size == old(activeSize)
    {
      outcome := Diagnose(p, footerIntact);
      if outcome == Released {
        Release(Find(live, p));
      }
    }

    /**
     * The release half of `m61_free`: block `k` leaves the live list, the
     * others keeping their order, and its header takes the freed tag.
     */
    method Release(k: nat)
      requires Books() && k < |live|
      modifies this`live, this`freed, this`freeCount, this`activeSize
      ensures Books()
      ensures live == old(live)[..k] + old(live)[k + 1..] && freed == old(freed) + {old(live)[k].addr}
      ensures freeCount == old(freeCount) + 1 && activeSize + old(live)[k].size == old(activeSize)
    {
      ghost var live0, freed0 := live, freed;
      var b := live[k];
      SumSizesRemove(live, k);
      freed := freed + {b.addr};
      freeCount := freeCount + 1;
      activeSize := activeSize - b.size;
      live := live[..k] + live[k + 1..];
      LaidRemove(live0, freed0, next, heapMin, heapMax, k);
    }

    /**
     * `m61_calloc`: room for `nmemb` elements of `sz` bytes, which is
     * `m61_malloc` of the product with all its outcomes, or, when that cannot
     * be asked for, a failure that counts and changes nothing else.
     */
    method Calloc(nmemb: u64, sz: u64, loc: Loc) returns (p: nat)
      requires Valid()
      modifies this, hitters, freqs
      ensures Valid()
      ensures CallocRequest(nmemb, sz) == None ==>
                p == 0 && failCount == old(failCount) + 1 && failSize == old(failSize) &&
                live == old(live) && freed == old(freed) && next == old(next) &&
                mallocCount == old(mallocCount) && freeCount == old(freeCount) &&
                activeSize == old(activeSize) && totalSize == old(totalSize) &&
                heapMin == old(heapMin) && heapMax == old(heapMax) &&
                hitters[..] == old(hitters[..]) && freqs[..] == old(freqs[..])
      ensures CallocRequest(nmemb, sz).Some? && nmemb * sz >= UINT_MAX ==>
                p == 0 && failCount == old(failCount) + 1 && failSize == (old(failSize) + nmemb * sz) % TWO_TO_64 &&
                live == old(live) && freed == old(freed) && next == old(next) &&
                mallocCount == old(mallocCount) && freeCount == old(freeCount) &&
                activeSize == old(activeSize) && totalSize == old(totalSize) &&
                heapMin == old(heapMin) && heapMax == old(heapMax) &&
                hitters[..] == old(hitters[..]) && freqs[..] == old(freqs[..])
      ensures CallocRequest(nmemb, sz).Some? && nmemb * sz < UINT_MAX ==>
                var n := nmemb * sz;
                p != 0 && p % 16 == 0 && Find(old(live), p) == -1 && p !in freed &&
                live == old(live) + [Block(p, n, loc)] && freed == old(freed) &&
                mallocCount == old(mallocCount) + 1 && freeCount == old(freeCount) &&
                activeSize == old(activeSize) + n && totalSize == old(totalSize) + n &&
                failCount == old(failCount) && failSize == old(failSize) &&
                heapMin == Min(old(heapMin), p) && heapMax == Max(old(heapMax), p + n) &&
                hitters[..] == HeavySpec(old(hitters[..]), loc, n) && freqs[..] == old(freqs[..])
    {
      var req := CallocRequest(nmemb, sz);
      match req {
        case Some(n) =>
          p := Malloc(n, loc);
        case None =>
          failCount := failCount + 1;
          p := 0;
      }
    }

    /**
     * `m61_get_statistics`: the counters as they stand; the active count is
     * the number of live blocks and the active size their total size.
     */
    function GetStatistics(): (s: Statistics)
      requires Valid()
      reads this, freqs
      ensures s.nactive == |live| && s.activeSize == SumSizes(live)
      ensures s.ntotal == s.nactive + freeCount
      ensures forall i | 0 <= i < |live| :: s.heapMin <= live[i].addr && live[i].addr + live[i].size <= s.heapMax
    {
      Statistics(mallocCount - freeCount, activeSize, mallocCount, totalSize,
                 failCount, failSize, heapMin, heapMax)
    }

    /**
     * `m61_print_heavy_hitter_report`: the byte table's sites, largest
     * counter first, then the frequency table's, which is always empty. The
     * byte table is left scrambled by the selection, the frequency table as
     * it was, and the allocator stays usable.
     */
    method HeavyHitterReport() returns (bytes: seq<Hitter>, allocations: seq<Hitter>)
      requires Valid()
      modifies hitters, freqs
      ensures Valid()
      ensures NonIncreasing(bytes) && multiset(bytes) == Printed(old(hitters[..]))
      ensures bytes == Selected(old(hitters[..]), hitters.Length)
      ensures hitters[..] == Scrambled(old(hitters[..]), hitters.Length) && freqs[..] == old(freqs[..])
      ensures allocations == []
    {
      ghost var f := freqs[..];
      bytes, allocations := Report(hitters, freqs);
      assert freqs[..] == f;
      assert forall i | 0 <= i < SLOTS :: freqs[i] == f[i];
      assert Books();
    }
  }

  /** Both report loops, over the byte table t and the frequency table u, which is all unused. */
  method Report(t: array<Hitter>, u: array<Hitter>) returns (bytes: seq<Hitter>, allocations: seq<Hitter>)
    requires t != u && forall i | 0 <= i < u.Length :: u[i] == Unused
    modifies t, u
    ensures NonIncreasing(bytes) && multiset(bytes) == Printed(old(t[..]))
    ensures bytes == Selected(old(t[..]), t.Length)
    ensures t[..] == Scrambled(old(t[..]), t.Length) && u[..] == old(u[..])
    ensures allocations == []
  {
    ghost var f := u[..];
    ScrambledUnused(f, u.Length);
    bytes := SelectReport(t);
    allocations := SelectReport(u);
    NothingPrinted(f, allocations);
  }

  function Min(a: int, b: int): int { if a <= b then a else b }
  function Max(a: int, b: int): int { if a >= b then a else b }
}
