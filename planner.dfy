/**
 * The block planner of the coordinator (`_group_registers` in coordinator.py):
 * every active definition with a coil or register address is classified into the
 * input, holding or coil address space; each space's (address, id) list is sorted by
 * address and cut greedily into contiguous read blocks, limited by a maximum gap
 * between neighbours and a maximum block size.
 */
module Planner {
  import opened Wrappers
  import opened Definitions

  /** The three lists of `registers_by_type`, in their iteration order. */
  datatype Space = InputSpace | HoldingSpace | CoilSpace

  /** Where a definition is read from. */
  datatype Placement = Placement(space: Space, address: int)

  /** One `(address, entity_id)` item of a `registers_by_type` list. */
  datatype Reg = Reg(address: int, id: EntityId)

  /** One `(reg_type, start, count, entity ids)` read block. */
  datatype Block = Block(space: Space, start: int, count: int, members: seq<EntityId>)

  /** The defaults of `_group_registers`, the only values the coordinator uses. */
  const DefaultMaxGap := 5
  const DefaultBlockSizeLimit := 122

  /** The holding test shared by the planner and the single-entity refresh. */
  predicate IsHolding(d: Definition, address: int) {
    d.entityType == Number || d.entityType == Select
    || (40001 <= address < 50000) || d.registerType == Some(HoldingRegister)
  }

  /** The address space and address of a definition; `None` when it has neither key. */
  function Classify(d: Definition): Option<Placement> {
    if d.coil.Some? then Some(Placement(CoilSpace, d.coil.value))
    else if d.register.Some? then
      Some(Placement(if IsHolding(d, d.register.value) then HoldingSpace else InputSpace, d.register.value))
    else None
  }

  /** Where the active definition of `id` is read from, if it is. */
  function PlacementOf(defs: seq<Entry>, id: EntityId): Option<Placement> {
    match Lookup(defs, id)
    case None => None
    case Some(d) => Classify(d)
  }

  /** The item one definition appends to the list of `space`: one, or none. */
  function Appended(e: Entry, space: Space): seq<Reg> {
    var p := Classify(e.definition);
    if p.Some? && p.value.space == space then [Reg(p.value.address, e.id)] else []
  }

  /** The `(address, id)` items appended to the list of `space`, in definition order. */
  function Candidates(defs: seq<Entry>, space: Space): seq<Reg> {
    if defs == [] then []
    else Candidates(defs[..|defs| - 1], space) + Appended(defs[|defs| - 1], space)
  }

  function MemberIds(regs: seq<Reg>): seq<EntityId> {
    seq(|regs|, i requires 0 <= i < |regs| => regs[i].id)
  }

  // ---------------------------------------------------------------------------
  // Python's stable `list.sort(key=address)`
  // ---------------------------------------------------------------------------

  predicate SortedByAddress(regs: seq<Reg>) {
    forall i, j :: 0 <= i < j < |regs| ==> regs[i].address <= regs[j].address
  }

  /** `r` placed after every item whose address is not larger. */
  function Insert(sorted: seq<Reg>, r: Reg): seq<Reg> {
    if sorted == [] then [r]
    else if sorted[|sorted| - 1].address <= r.address then sorted + [r]
    else Insert(sorted[..|sorted| - 1], r) + [sorted[|sorted| - 1]]
  }

  function SortByAddress(regs: seq<Reg>): seq<Reg> {
    if regs == [] then [] else Insert(SortByAddress(regs[..|regs| - 1]), regs[|regs| - 1])
  }

  /** The items with one address, in their order. */
  function WithAddress(regs: seq<Reg>, a: int): seq<Reg> {
    if regs == [] then []
    else WithAddress(regs[..|regs| - 1], a) + (if regs[|regs| - 1].address == a then [regs[|regs| - 1]] else [])
  }

  lemma {:induction false} InsertPermutes(t: seq<Reg>, r: Reg)
    ensures multiset(Insert(t, r)) == multiset(t) + multiset{r}
  {
    if t != [] && t[|t| - 1].address > r.address {
      var front, x := t[..|t| - 1], t[|t| - 1];
      InsertPermutes(front, r);
      assert t == front + [x];
      assert Insert(t, r) == Insert(front, r) + [x];
    }
  }

  lemma MemberIdsSnoc(t: seq<Reg>, x: Reg)
    ensures MemberIds(t + [x]) == MemberIds(t) + [x.id]
  {
  }

  lemma {:induction false} InsertPermutesIds(t: seq<Reg>, r: Reg)
    ensures multiset(MemberIds(Insert(t, r))) == multiset(MemberIds(t)) + multiset{r.id}
  {
    if t == [] {
    } else if t[|t| - 1].address <= r.address {
      MemberIdsSnoc(t, r);
    } else {
      var front, x := t[..|t| - 1], t[|t| - 1];
      InsertPermutesIds(front, r);
      assert t == front + [x];
      MemberIdsSnoc(front, x);
      MemberIdsSnoc(Insert(front, r), x);
      assert Insert(t, r) == Insert(front, r) + [x];
    }
  }

  lemma {:induction false} InsertSorted(t: seq<Reg>, r: Reg)
    requires SortedByAddress(t)
    ensures SortedByAddress(Insert(t, r))
  {
    if t != [] && t[|t| - 1].address > r.address {
      var front, x := t[..|t| - 1], t[|t| - 1];
      InsertSorted(front, r);
      InsertPermutes(front, r);
      var s := Insert(front, r);
      forall i | 0 <= i < |s| ensures s[i].address <= x.address {
        assert s[i] in multiset(s);
        assert s[i] == r || s[i] in front;
      }
    }
  }

  lemma {:induction false} InsertStable(t: seq<Reg>, r: Reg, a: int)
    ensures WithAddress(Insert(t, r), a) == WithAddress(t, a) + (if r.address == a then [r] else [])
  {
    if t == [] {
    } else if t[|t| - 1].address <= r.address {
      WithAddressSnoc(t, r, a);
    } else {
      var front, x := t[..|t| - 1], t[|t| - 1];
      InsertStable(front, r, a);
      assert t == front + [x];
      WithAddressSnoc(front, x, a);
      WithAddressSnoc(Insert(front, r), x, a);
    }
  }

  lemma WithAddressSnoc(t: seq<Reg>, x: Reg, a: int)
    ensures WithAddress(t + [x], a) == WithAddress(t, a) + (if x.address == a then [x] else [])
  {
    assert (t + [x])[..|t|] == t;
  }

  /** Sorting yields an address-ordered permutation that keeps equal addresses in order. */
  lemma {:induction false} SortByAddressSpec(regs: seq<Reg>)
    ensures SortedByAddress(SortByAddress(regs))
    ensures multiset(SortByAddress(regs)) == multiset(regs)
    ensures multiset(MemberIds(SortByAddress(regs))) == multiset(MemberIds(regs))
    ensures forall a :: WithAddress(SortByAddress(regs), a) == WithAddress(regs, a)
  {
    if regs != [] {
      var front, x := regs[..|regs| - 1], regs[|regs| - 1];
      SortByAddressSpec(front);
      InsertSorted(SortByAddress(front), x);
      InsertPermutes(SortByAddress(front), x);
      InsertPermutesIds(SortByAddress(front), x);
      assert regs == front + [x];
      MemberIdsSnoc(front, x);
      forall a ensures WithAddress(SortByAddress(regs), a) == WithAddress(regs, a) {
        InsertStable(SortByAddress(front), x, a);
      }
    }
  }

  // ---------------------------------------------------------------------------
  // The greedy cut
  // ---------------------------------------------------------------------------

  /** The member ids of all blocks, in block order. */
  function Flatten(bs: seq<Block>): seq<EntityId> {
    if bs == [] then [] else Flatten(bs[..|bs| - 1]) + bs[|bs| - 1].members
  }

  /** Item `j` extends the block that holds item `j - 1` and starts at `start`. */
  predicate Joins(regs: seq<Reg>, j: int, start: int, maxGap: int, limit: int)
    requires 0 < j < |regs|
  {
    regs[j].address - regs[j - 1].address <= maxGap && regs[j].address - start + 1 < limit
  }

  /**
   * Block `b` holds exactly the items `regs[i..e]`: it starts at the first one, counts
   * up to the last one, every later item joined it, and the item after it did not.
   */
  ghost predicate BlockFits(space: Space, regs: seq<Reg>, b: Block, i: int, maxGap: int, limit: int) {
    var e := i + |b.members|;
    0 <= i < e <= |regs|
    && b.space == space
    && b.members == MemberIds(regs[i..e])
    && b.start == regs[i].address
    && b.count == regs[e - 1].address - b.start + 1
    && (forall j :: i < j < e ==> Joins(regs, j, b.start, maxGap, limit))
    && (e < |regs| ==> !Joins(regs, e, b.start, maxGap, limit))
  }

  /** Block `k` of `bs` fits where the blocks before it end. */
  ghost predicate FitsAt(space: Space, regs: seq<Reg>, bs: seq<Block>, k: int, maxGap: int, limit: int) {
    0 <= k < |bs| && BlockFits(space, regs, bs[k], |Flatten(bs[..k])|, maxGap, limit)
  }

  /** `bs` cuts all of `regs`, in order, block by block, by the greedy rule. */
  ghost predicate IsGreedyPlan(space: Space, regs: seq<Reg>, bs: seq<Block>, maxGap: int, limit: int) {
    |Flatten(bs)| == |regs|
    && forall k :: 0 <= k < |bs| ==> FitsAt(space, regs, bs, k, maxGap, limit)
  }

  /** No address equals -1, the value the source uses for "no block open yet". */
  predicate NoSentinel(regs: seq<Reg>) {
    forall j :: 0 <= j < |regs| ==> regs[j].address != -1
  }

  ghost predicate ClosedBlocks(space: Space, regs: seq<Reg>, bs: seq<Block>, first: int, maxGap: int, limit: int) {
    |Flatten(bs)| == first
    && forall k :: 0 <= k < |bs| ==> FitsAt(space, regs, bs, k, maxGap, limit)
  }

  ghost predicate OpenBlock(regs: seq<Reg>, first: int, i: int, start: int, last: int,
                            members: seq<EntityId>, maxGap: int, limit: int) {
    0 <= first < i <= |regs|
    && start == regs[first].address
    && last == regs[i - 1].address
    && members == MemberIds(regs[first..i])
    && forall j :: first < j < i ==> Joins(regs, j, start, maxGap, limit)
  }

  lemma FlattenPrefix(bs: seq<Block>, k: nat)
    requires k < |bs|
    ensures Flatten(bs[..k + 1]) == Flatten(bs[..k]) + bs[k].members
  {
    assert bs[..k + 1][..k] == bs[..k];
  }

  lemma CloseBlock(space: Space, regs: seq<Reg>, bs: seq<Block>, first: int, b: Block, maxGap: int, limit: int)
    requires ClosedBlocks(space, regs, bs, first, maxGap, limit)
    requires BlockFits(space, regs, b, first, maxGap, limit)
    ensures ClosedBlocks(space, regs, bs + [b], first + |b.members|, maxGap, limit)
  {
    var bs' := bs + [b];
    assert bs'[..|bs|] == bs;
    assert bs'[..|bs'|] == bs';
    forall k | 0 <= k < |bs'|
      ensures FitsAt(space, regs, bs', k, maxGap, limit)
    {
      if k < |bs| {
        assert bs'[..k] == bs[..k];
        assert FitsAt(space, regs, bs, k, maxGap, limit);
      }
    }
  }

  lemma LastBlockFits(space: Space, regs: seq<Reg>, first: int, start: int, last: int,
                      members: seq<EntityId>, maxGap: int, limit: int)
    requires OpenBlock(regs, first, |regs|, start, last, members, maxGap, limit)
    ensures BlockFits(space, regs, Block(space, start, last - start + 1, members), first, maxGap, limit)
  {
  }

  /** What holds before item `i` is looked at, when no address is the sentinel. */
  ghost predicate Progress(space: Space, regs: seq<Reg>, bs: seq<Block>, first: int, i: int, start: int,
                           last: int, members: seq<EntityId>, maxGap: int, limit: int) {
    0 <= i <= |regs|
    && (i == 0 ==> start == -1 && bs == [] && first == 0)
    && (0 < i < |regs| ==> OpenBlock(regs, first, i, start, last, members, maxGap, limit)
                           && ClosedBlocks(space, regs, bs, first, maxGap, limit))
    && (0 < i == |regs| ==> ClosedBlocks(space, regs, bs, |regs|, maxGap, limit))
  }

  /** What holds after item `i` has been placed in the open block. */
  ghost predicate Placed(space: Space, regs: seq<Reg>, bs: seq<Block>, first: int, i: int, start: int,
                         last: int, members: seq<EntityId>, maxGap: int, limit: int) {
    i < |regs|
    && OpenBlock(regs, first, i + 1, start, last, members, maxGap, limit)
    && ClosedBlocks(space, regs, bs, first, maxGap, limit)
  }

  lemma OpenStep(space: Space, regs: seq<Reg>, bs: seq<Block>, first: int, i: int, start: int,
                 last: int, members: seq<EntityId>, maxGap: int, limit: int)
    requires NoSentinel(regs) && i < |regs| && start == -1
    requires Progress(space, regs, bs, first, i, start, last, members, maxGap, limit)
    ensures Placed(space, regs, bs, 0, i, regs[i].address, regs[i].address, [regs[i].id], maxGap, limit)
  {
    assert i == 0;
    assert regs[0..1] == [regs[0]];
  }

  lemma SplitBlockFits(space: Space, regs: seq<Reg>, first: int, i: int, start: int, last: int,
                       members: seq<EntityId>, maxGap: int, limit: int)
    requires i < |regs| && OpenBlock(regs, first, i, start, last, members, maxGap, limit)
    requires !Joins(regs, i, start, maxGap, limit)
    ensures BlockFits(space, regs, Block(space, start, last - start + 1, members), first, maxGap, limit)
  {
  }

  lemma SplitStep(space: Space, regs: seq<Reg>, bs: seq<Block>, first: int, i: int, start: int,
                  last: int, members: seq<EntityId>, maxGap: int, limit: int)
    requires 0 < i < |regs|
    requires OpenBlock(regs, first, i, start, last, members, maxGap, limit)
    requires ClosedBlocks(space, regs, bs, first, maxGap, limit)
    requires regs[i].address - last > maxGap || regs[i].address - start + 1 >= limit
    ensures Placed(space, regs, bs + [Block(space, start, last - start + 1, members)], i, i,
                   regs[i].address, regs[i].address, [regs[i].id], maxGap, limit)
  {
    SplitBlockFits(space, regs, first, i, start, last, members, maxGap, limit);
    CloseBlock(space, regs, bs, first, Block(space, start, last - start + 1, members), maxGap, limit);
    assert regs[i..i + 1] == [regs[i]];
  }

  lemma JoinStep(space: Space, regs: seq<Reg>, bs: seq<Block>, first: int, i: int, start: int,
                 last: int, members: seq<EntityId>, maxGap: int, limit: int)
    requires 0 < i < |regs|
    requires OpenBlock(regs, first, i, start, last, members, maxGap, limit)
    requires ClosedBlocks(space, regs, bs, first, maxGap, limit)
    requires !(regs[i].address - last > maxGap || regs[i].address - start + 1 >= limit)
    ensures Placed(space, regs, bs, first, i, start, regs[i].address, members + [regs[i].id], maxGap, limit)
  {
    assert regs[first..i + 1] == regs[first..i] + [regs[i]];
    assert MemberIds(regs[first..i + 1]) == MemberIds(regs[first..i]) + [regs[i].id];
  }

  lemma NextStep(space: Space, regs: seq<Reg>, bs: seq<Block>, first: int, i: int, start: int,
                 last: int, members: seq<EntityId>, maxGap: int, limit: int)
    requires i < |regs| - 1
    requires Placed(space, regs, bs, first, i, start, last, members, maxGap, limit)
    ensures Progress(space, regs, bs, first, i + 1, start, last, members, maxGap, limit)
  {
  }

  lemma FinalStep(space: Space, regs: seq<Reg>, bs: seq<Block>, first: int, i: int, start: int,
                  last: int, members: seq<EntityId>, maxGap: int, limit: int)
    requires i == |regs| - 1
    requires Placed(space, regs, bs, first, i, start, last, members, maxGap, limit)
    ensures Progress(space, regs, bs + [Block(space, start, last - start + 1, members)], first, i + 1,
                     start, last, members, maxGap, limit)
  {
    LastBlockFits(space, regs, first, start, last, members, maxGap, limit);
    CloseBlock(space, regs, bs, first, Block(space, start, last - start + 1, members), maxGap, limit);
  }

  /** One pass of the loop body of `_group_registers`, on item `i`, as a relation between states. */
  ghost predicate Step(space: Space, regs: seq<Reg>, maxGap: int, limit: int, i: int,
                       bs: seq<Block>, first: int, start: int, last: int, members: seq<EntityId>,
                       bs': seq<Block>, first': int, start': int, last': int, members': seq<EntityId>)
    requires 0 <= i < |regs|
  {
    var a := regs[i].address;
    var isNew := start == -1;
    var split := !isNew && (a - last > maxGap || a - start + 1 >= limit);
    var mid := if split then bs + [Block(space, start, last - start + 1, members)] else bs;
    first' == (if isNew || split then i else first)
    && start' == (if isNew || split then a else start)
    && last' == a
    && members' == (if isNew || split then [regs[i].id] else members + [regs[i].id])
    && bs' == (if i == |regs| - 1 then mid + [Block(space, start', a - start' + 1, members')] else mid)
  }

  lemma Finish(space: Space, regs: seq<Reg>, maxGap: int, limit: int, i: int, mid: seq<Block>,
               first: int, start: int, last: int, members: seq<EntityId>, bs': seq<Block>)
    requires Placed(space, regs, mid, first, i, start, last, members, maxGap, limit)
    requires bs' == if i == |regs| - 1 then mid + [Block(space, start, last - start + 1, members)] else mid
    ensures Progress(space, regs, bs', first, i + 1, start, last, members, maxGap, limit)
  {
    if i == |regs| - 1 {
      FinalStep(space, regs, mid, first, i, start, last, members, maxGap, limit);
    } else {
      NextStep(space, regs, mid, first, i, start, last, members, maxGap, limit);
    }
  }

  lemma OpenCase(space: Space, regs: seq<Reg>, maxGap: int, limit: int, i: int,
                 bs: seq<Block>, first: int, start: int, last: int, members: seq<EntityId>,
                 bs': seq<Block>, first': int, start': int, last': int, members': seq<EntityId>)
    requires NoSentinel(regs) && 0 <= i < |regs| && start == -1
    requires Progress(space, regs, bs, first, i, start, last, members, maxGap, limit)
    requires Step(space, regs, maxGap, limit, i, bs, first, start, last, members, bs', first', start', last', members')
    ensures Progress(space, regs, bs', first', i + 1, start', last', members', maxGap, limit)
  {
    OpenStep(space, regs, bs, first, i, start, last, members, maxGap, limit);
    Finish(space, regs, maxGap, limit, i, bs, first', start', last', members', bs');
  }

  lemma SplitCase(space: Space, regs: seq<Reg>, maxGap: int, limit: int, i: int,
                  bs: seq<Block>, first: int, start: int, last: int, members: seq<EntityId>,
                  bs': seq<Block>, first': int, start': int, last': int, members': seq<EntityId>)
    requires NoSentinel(regs) && 0 <= i < |regs| && start != -1
    requires regs[i].address - last > maxGap || regs[i].address - start + 1 >= limit
    requires Progress(space, regs, bs, first, i, start, last, members, maxGap, limit)
    requires Step(space, regs, maxGap, limit, i, bs, first, start, last, members, bs', first', start', last', members')
    ensures Progress(space, regs, bs', first', i + 1, start', last', members', maxGap, limit)
  {
    var mid := bs + [Block(space, start, last - start + 1, members)];
    SplitStep(space, regs, bs, first, i, start, last, members, maxGap, limit);
    Finish(space, regs, maxGap, limit, i, mid, first', start', last', members', bs');
  }

  lemma JoinCase(space: Space, regs: seq<Reg>, maxGap: int, limit: int, i: int,
                 bs: seq<Block>, first: int, start: int, last: int, members: seq<EntityId>,
                 bs': seq<Block>, first': int, start': int, last': int, members': seq<EntityId>)
    requires NoSentinel(regs) && 0 <= i < |regs| && start != -1
    requires !(regs[i].address - last > maxGap || regs[i].address - start + 1 >= limit)
    requires Progress(space, regs, bs, first, i, start, last, members, maxGap, limit)
    requires Step(space, regs, maxGap, limit, i, bs, first, start, last, members, bs', first', start', last', members')
    ensures Progress(space, regs, bs', first', i + 1, start', last', members', maxGap, limit)
  {
    JoinStep(space, regs, bs, first, i, start, last, members, maxGap, limit);
    Finish(space, regs, maxGap, limit, i, bs, first', start', last', members', bs');
  }

  /** Each pass of the loop keeps the progress invariant. */
  lemma StepPreserves(space: Space, regs: seq<Reg>, maxGap: int, limit: int, i: int,
                      bs: seq<Block>, first: int, start: int, last: int, members: seq<EntityId>,
                      bs': seq<Block>, first': int, start': int, last': int, members': seq<EntityId>)
    requires NoSentinel(regs) && 0 <= i < |regs|
    requires Progress(space, regs, bs, first, i, start, last, members, maxGap, limit)
    requires Step(space, regs, maxGap, limit, i, bs, first, start, last, members, bs', first', start', last', members')
    ensures Progress(space, regs, bs', first', i + 1, start', last', members', maxGap, limit)
  {
    if start == -1 {
      OpenCase(space, regs, maxGap, limit, i, bs, first, start, last, members, bs', first', start', last', members');
    } else if regs[i].address - last > maxGap || regs[i].address - start + 1 >= limit {
      SplitCase(space, regs, maxGap, limit, i, bs, first, start, last, members, bs', first', start', last', members');
    } else {
      JoinCase(space, regs, maxGap, limit, i, bs, first, start, last, members, bs', first', start', last', members');
    }
  }

  lemma ProgressDone(space: Space, regs: seq<Reg>, bs: seq<Block>, first: int, start: int,
                     last: int, members: seq<EntityId>, maxGap: int, limit: int)
    requires Progress(space, regs, bs, first, |regs|, start, last, members, maxGap, limit)
    ensures IsGreedyPlan(space, regs, bs, maxGap, limit)
  {
  }

  /**
   * The loop of `_group_registers` over one sorted list.  As in the source, -1 marks
   * "no block open"; when no address is -1 the result is the greedy plan.
   */
  method GroupSorted(space: Space, regs: seq<Reg>, maxGap: int, limit: int) returns (blocks: seq<Block>)
    ensures forall k :: 0 <= k < |blocks| ==> blocks[k].space == space
    ensures NoSentinel(regs) ==> IsGreedyPlan(space, regs, blocks, maxGap, limit)
  {
    blocks := [];
    var start := -1;
    var members: seq<EntityId> := [];
    var last := -1;
    ghost var clean := NoSentinel(regs);
    ghost var first := 0;
    for i := 0 to |regs|
      invariant forall k :: 0 <= k < |blocks| ==> blocks[k].space == space
      invariant clean ==> Progress(space, regs, blocks, first, i, start, last, members, maxGap, limit)
    {
      ghost var bs0, first0, start0, last0, members0 := blocks, first, start, last, members;
      var addr := regs[i].address;
      var id := regs[i].id;
      if start == -1 {
        first := i;
        start := addr;
        last := addr;
        members := [id];
      } else {
        var gapTooBig := addr - last > maxGap;
        var blockTooBig := addr - start + 1 >= limit;
        if gapTooBig || blockTooBig {
          var count := last - start + 1;
          blocks := blocks + [Block(space, start, count, members)];
          first := i;
          start := addr;
          members := [id];
        } else {
          members := members + [id];
        }
        last := addr;
      }
      if i == |regs| - 1 {
        var count := last - start + 1;
        blocks := blocks + [Block(space, start, count, members)];
      }
      if clean {
        StepPreserves(space, regs, maxGap, limit, i, bs0, first0, start0, last0, members0,
                      blocks, first, start, last, members);
      }
    }
    if clean {
      ProgressDone(space, regs, blocks, first, start, last, members, maxGap, limit);
    }
  }

  // ---------------------------------------------------------------------------
  // Properties of the greedy plan
  // ---------------------------------------------------------------------------

  lemma MemberIdsConcat(a: seq<Reg>, b: seq<Reg>)
    ensures MemberIds(a + b) == MemberIds(a) + MemberIds(b)
  {
  }

  lemma {:induction false} PlanPrefix(space: Space, regs: seq<Reg>, bs: seq<Block>, maxGap: int, limit: int, k: nat)
    requires IsGreedyPlan(space, regs, bs, maxGap, limit) && k <= |bs|
    ensures |Flatten(bs[..k])| <= |regs|
    ensures Flatten(bs[..k]) == MemberIds(regs[..|Flatten(bs[..k])|])
  {
    if k == 0 {
      assert bs[..0] == [];
    } else {
      PlanPrefix(space, regs, bs, maxGap, limit, k - 1);
      FlattenPrefix(bs, k - 1);
      var i := |Flatten(bs[..k - 1])|;
      var e := i + |bs[k - 1].members|;
      assert FitsAt(space, regs, bs, k - 1, maxGap, limit);
      assert regs[..e] == regs[..i] + regs[i..e];
      MemberIdsConcat(regs[..i], regs[i..e]);
    }
  }

  /** The blocks of a plan hold every item's id once, in sorted order. */
  lemma GreedyPlanPartition(space: Space, regs: seq<Reg>, bs: seq<Block>, maxGap: int, limit: int)
    requires IsGreedyPlan(space, regs, bs, maxGap, limit)
    ensures Flatten(bs) == MemberIds(regs)
  {
    PlanPrefix(space, regs, bs, maxGap, limit, |bs|);
    assert bs[..|bs|] == bs;
    assert regs[..|regs|] == regs;
  }

  /** Two blocks that fit at the same position are the same block. */
  lemma BlockFitsUnique(space: Space, regs: seq<Reg>, b: Block, c: Block, i: int, maxGap: int, limit: int)
    requires BlockFits(space, regs, b, i, maxGap, limit) && BlockFits(space, regs, c, i, maxGap, limit)
    ensures b == c
  {
    assert |b.members| == |c.members|;
  }

  lemma {:induction false} PlanAgree(space: Space, regs: seq<Reg>, a: seq<Block>, b: seq<Block>,
                                     maxGap: int, limit: int, k: nat)
    requires IsGreedyPlan(space, regs, a, maxGap, limit) && IsGreedyPlan(space, regs, b, maxGap, limit)
    requires k <= |a| && k <= |b|
    ensures a[..k] == b[..k]
  {
    if k > 0 {
      PlanAgree(space, regs, a, b, maxGap, limit, k - 1);
      var i := |Flatten(a[..k - 1])|;
      assert FitsAt(space, regs, a, k - 1, maxGap, limit);
      assert FitsAt(space, regs, b, k - 1, maxGap, limit);
      assert a[..k - 1] == b[..k - 1];
      BlockFitsUnique(space, regs, a[k - 1], b[k - 1], i, maxGap, limit);
      assert a[..k] == a[..k - 1] + [a[k - 1]];
      assert b[..k] == b[..k - 1] + [b[k - 1]];
    }
  }

  lemma PlanNoLonger(space: Space, regs: seq<Reg>, a: seq<Block>, b: seq<Block>, maxGap: int, limit: int)
    requires IsGreedyPlan(space, regs, a, maxGap, limit) && IsGreedyPlan(space, regs, b, maxGap, limit)
    ensures |a| <= |b|
  {
    if |b| < |a| {
      assert b[..|b|] == b;
      assert FitsAt(space, regs, a, |b|, maxGap, limit);
      PlanAgree(space, regs, a, b, maxGap, limit, |b|);
      assert false;
    }
  }

  /** The greedy rule leaves no choice: a list has exactly one greedy plan. */
  lemma GreedyPlanUnique(space: Space, regs: seq<Reg>, a: seq<Block>, b: seq<Block>, maxGap: int, limit: int)
    requires IsGreedyPlan(space, regs, a, maxGap, limit) && IsGreedyPlan(space, regs, b, maxGap, limit)
    ensures a == b
  {
    PlanNoLonger(space, regs, a, b, maxGap, limit);
    PlanNoLonger(space, regs, b, a, maxGap, limit);
    PlanAgree(space, regs, a, b, maxGap, limit, |a|);
    assert a[..|a|] == a && b[..|b|] == b;
  }

  lemma FitsBounds(space: Space, regs: seq<Reg>, b: Block, i: int, maxGap: int, limit: int)
    requires BlockFits(space, regs, b, i, maxGap, limit)
    ensures b.members != []
    ensures b.start == regs[i].address && b.start + b.count - 1 == regs[i + |b.members| - 1].address
    ensures b.count == 1 || b.count < limit
  {
    var e := i + |b.members|;
    if e - 1 > i {
      assert Joins(regs, e - 1, b.start, maxGap, limit);
    }
  }

  /**
   * A block is never empty, starts at its first item, ends at its last one, and a block of
   * more than one item spans fewer than `limit` addresses.
   */
  lemma GreedyBlockBounds(space: Space, regs: seq<Reg>, bs: seq<Block>, maxGap: int, limit: int, k: nat)
    requires IsGreedyPlan(space, regs, bs, maxGap, limit) && k < |bs|
    ensures |Flatten(bs[..k])| + |bs[k].members| <= |regs|
    ensures var i := |Flatten(bs[..k])|;
            var b := bs[k];
            && b.members != []
            && b.start == regs[i].address
            && b.start + b.count - 1 == regs[i + |b.members| - 1].address
            && (b.count == 1 || b.count < limit)
  {
    assert FitsAt(space, regs, bs, k, maxGap, limit);
    FitsBounds(space, regs, bs[k], |Flatten(bs[..k])|, maxGap, limit);
  }

  lemma FitsGaps(space: Space, regs: seq<Reg>, b: Block, i: int, maxGap: int, limit: int)
    requires BlockFits(space, regs, b, i, maxGap, limit) && SortedByAddress(regs)
    ensures forall j :: i < j < i + |b.members| ==> 0 <= regs[j].address - regs[j - 1].address <= maxGap
    ensures 1 <= b.count
  {
    forall j | i < j < i + |b.members|
      ensures 0 <= regs[j].address - regs[j - 1].address <= maxGap
    {
      assert Joins(regs, j, b.start, maxGap, limit);
    }
    assert regs[i].address <= regs[i + |b.members| - 1].address;
  }

  /** Inside a block addresses ascend, neighbours differ by at most `maxGap`, and the count is positive. */
  lemma GreedyBlockGaps(space: Space, regs: seq<Reg>, bs: seq<Block>, maxGap: int, limit: int, k: nat)
    requires IsGreedyPlan(space, regs, bs, maxGap, limit) && SortedByAddress(regs) && k < |bs|
    ensures |Flatten(bs[..k])| + |bs[k].members| <= |regs|
    ensures var i := |Flatten(bs[..k])|;
            forall j :: i < j < i + |bs[k].members| ==> 0 <= regs[j].address - regs[j - 1].address <= maxGap
    ensures 1 <= bs[k].count
  {
    assert FitsAt(space, regs, bs, k, maxGap, limit);
    FitsGaps(space, regs, bs[k], |Flatten(bs[..k])|, maxGap, limit);
  }

  lemma FitsSplit(space: Space, regs: seq<Reg>, b: Block, c: Block, i: int, maxGap: int, limit: int)
    requires BlockFits(space, regs, b, i, maxGap, limit)
    requires BlockFits(space, regs, c, i + |b.members|, maxGap, limit)
    ensures c.start - (b.start + b.count - 1) > maxGap || c.start - b.start + 1 >= limit
  {
    assert !Joins(regs, i + |b.members|, b.start, maxGap, limit);
  }

  /** The next block of a plan starts because the gap rule or the size rule fired. */
  lemma GreedySplitRule(space: Space, regs: seq<Reg>, bs: seq<Block>, maxGap: int, limit: int, k: nat)
    requires IsGreedyPlan(space, regs, bs, maxGap, limit) && k + 1 < |bs|
    ensures var b, c := bs[k], bs[k + 1];
            c.start - (b.start + b.count - 1) > maxGap || c.start - b.start + 1 >= limit
  {
    FlattenPrefix(bs, k);
    assert FitsAt(space, regs, bs, k, maxGap, limit);
    assert FitsAt(space, regs, bs, k + 1, maxGap, limit);
    FitsSplit(space, regs, bs[k], bs[k + 1], |Flatten(bs[..k])|, maxGap, limit);
  }

  // ---------------------------------------------------------------------------
  // `_group_registers`
  // ---------------------------------------------------------------------------

  /** The blocks of one space, in plan order. */
  function BlocksIn(bs: seq<Block>, space: Space): seq<Block> {
    if bs == [] then []
    else BlocksIn(bs[..|bs| - 1], space) + (if bs[|bs| - 1].space == space then [bs[|bs| - 1]] else [])
  }

  /** The list of a space, as sorted by `_group_registers`. */
  function SortedCandidates(defs: seq<Entry>, space: Space): seq<Reg> {
    SortByAddress(Candidates(defs, space))
  }

  /**
   * `blocks` lists the input blocks, then the holding blocks, then the coil blocks, and each
   * space's blocks are the greedy plan of its sorted list.
   */
  ghost predicate IsBlockPlan(defs: seq<Entry>, blocks: seq<Block>, maxGap: int, limit: int) {
    blocks == BlocksIn(blocks, InputSpace) + BlocksIn(blocks, HoldingSpace) + BlocksIn(blocks, CoilSpace)
    && forall s: Space :: IsGreedyPlan(s, SortedCandidates(defs, s), BlocksIn(blocks, s), maxGap, limit)
  }

  lemma {:induction false} BlocksInConcat(a: seq<Block>, b: seq<Block>, space: Space)
    ensures BlocksIn(a + b, space) == BlocksIn(a, space) + BlocksIn(b, space)
  {
    if b == [] {
      assert a + b == a;
    } else {
      var front := b[..|b| - 1];
      BlocksInConcat(a, front, space);
      assert (a + b)[..|a + b| - 1] == a + front;
      assert (a + b)[|a + b| - 1] == b[|b| - 1];
    }
  }

  lemma {:induction false} BlocksInUniform(bs: seq<Block>, space: Space, other: Space)
    requires forall k :: 0 <= k < |bs| ==> bs[k].space == space
    ensures BlocksIn(bs, space) == bs
    ensures other != space ==> BlocksIn(bs, other) == []
  {
    if bs != [] {
      BlocksInUniform(bs[..|bs| - 1], space, other);
    }
  }

  /** No item of any list carries the address -1. */
  predicate NoSentinelIn(defs: seq<Entry>) {
    forall s: Space :: NoSentinel(Candidates(defs, s))
  }

  lemma SortKeepsNoSentinel(regs: seq<Reg>)
    requires NoSentinel(regs)
    ensures NoSentinel(SortByAddress(regs))
  {
    SortByAddressSpec(regs);
    var t := SortByAddress(regs);
    forall j | 0 <= j < |t| ensures t[j].address != -1 {
      assert t[j] in multiset(t);
      assert t[j] in regs;
    }
  }

  /**
   * `_group_registers`: the entity definitions, in dictionary order, are classified into
   * the input, holding and coil lists; each list is sorted and cut into blocks.
   */
  method GroupRegisters(defs: seq<Entry>, maxGap: int, limit: int) returns (blocks: seq<Block>)
    ensures NoSentinelIn(defs) ==> IsBlockPlan(defs, blocks, maxGap, limit)
  {
    var inputs, holdings, coils: seq<Reg> := [], [], [];
    for i := 0 to |defs|
      invariant inputs == Candidates(defs[..i], InputSpace)
      invariant holdings == Candidates(defs[..i], HoldingSpace)
      invariant coils == Candidates(defs[..i], CoilSpace)
    {
      var e := defs[i];
      assert defs[..i + 1][..i] == defs[..i];
      match Classify(e.definition)
      case Some(p) =>
        match p.space {
          case InputSpace => inputs := inputs + [Reg(p.address, e.id)];
          case HoldingSpace => holdings := holdings + [Reg(p.address, e.id)];
          case CoilSpace => coils := coils + [Reg(p.address, e.id)];
        }
      case None =>
    }
    assert defs[..|defs|] == defs;
    var inputBlocks := GroupSorted(InputSpace, SortByAddress(inputs), maxGap, limit);
    var holdingBlocks := GroupSorted(HoldingSpace, SortByAddress(holdings), maxGap, limit);
    var coilBlocks := GroupSorted(CoilSpace, SortByAddress(coils), maxGap, limit);
    blocks := inputBlocks + holdingBlocks + coilBlocks;
    if NoSentinelIn(defs) {
      PlanOfParts(defs, inputBlocks, holdingBlocks, coilBlocks, maxGap, limit);
    }
  }

  lemma BlocksInParts(ib: seq<Block>, hb: seq<Block>, cb: seq<Block>, space: Space)
    requires forall k :: 0 <= k < |ib| ==> ib[k].space == InputSpace
    requires forall k :: 0 <= k < |hb| ==> hb[k].space == HoldingSpace
    requires forall k :: 0 <= k < |cb| ==> cb[k].space == CoilSpace
    ensures BlocksIn(ib + hb + cb, space) == match space
                                            case InputSpace => ib
                                            case HoldingSpace => hb
                                            case CoilSpace => cb
  {
    BlocksInConcat(ib + hb, cb, space);
    BlocksInConcat(ib, hb, space);
    BlocksInUniform(ib, InputSpace, space);
    BlocksInUniform(hb, HoldingSpace, space);
    BlocksInUniform(cb, CoilSpace, space);
  }

  lemma PlanOfParts(defs: seq<Entry>, ib: seq<Block>, hb: seq<Block>, cb: seq<Block>, maxGap: int, limit: int)
    requires NoSentinelIn(defs)
    requires forall k :: 0 <= k < |ib| ==> ib[k].space == InputSpace
    requires forall k :: 0 <= k < |hb| ==> hb[k].space == HoldingSpace
    requires forall k :: 0 <= k < |cb| ==> cb[k].space == CoilSpace
    requires NoSentinel(SortedCandidates(defs, InputSpace)) ==> IsGreedyPlan(InputSpace, SortedCandidates(defs, InputSpace), ib, maxGap, limit)
    requires NoSentinel(SortedCandidates(defs, HoldingSpace)) ==> IsGreedyPlan(HoldingSpace, SortedCandidates(defs, HoldingSpace), hb, maxGap, limit)
    requires NoSentinel(SortedCandidates(defs, CoilSpace)) ==> IsGreedyPlan(CoilSpace, SortedCandidates(defs, CoilSpace), cb, maxGap, limit)
    ensures IsBlockPlan(defs, ib + hb + cb, maxGap, limit)
  {
    var blocks := ib + hb + cb;
    BlocksInParts(ib, hb, cb, InputSpace);
    BlocksInParts(ib, hb, cb, HoldingSpace);
    BlocksInParts(ib, hb, cb, CoilSpace);
    forall s: Space ensures IsGreedyPlan(s, SortedCandidates(defs, s), BlocksIn(blocks, s), maxGap, limit) {
      assert NoSentinel(Candidates(defs, s));
      SortKeepsNoSentinel(Candidates(defs, s));
      match s {
        case InputSpace =>
        case HoldingSpace =>
        case CoilSpace =>
      }
    }
  }

  // ---------------------------------------------------------------------------
  // Every placed definition is read exactly once, in a block of its own space
  // ---------------------------------------------------------------------------

  /** The block type rules: a coil wins; otherwise the holding test picks holding or input. */
  lemma ClassifyRules(d: Definition)
    ensures Classify(d).Some? <==> d.coil.Some? || d.register.Some?
    ensures d.coil.Some? ==> Classify(d) == Some(Placement(CoilSpace, d.coil.value))
    ensures d.coil.None? && d.register.Some? ==>
              Classify(d).value.address == d.register.value
              && (Classify(d).value.space == HoldingSpace <==>
                    d.entityType in {Number, Select} || 40001 <= d.register.value < 50000
                    || d.registerType == Some(HoldingRegister))
              && Classify(d).value.space != CoilSpace
  {
  }

  lemma CountConcat(a: seq<Reg>, b: seq<Reg>, id: EntityId)
    ensures multiset(MemberIds(a + b))[id] == multiset(MemberIds(a))[id] + multiset(MemberIds(b))[id]
  {
    MemberIdsConcat(a, b);
  }

  lemma AppendedCount(e: Entry, space: Space, id: EntityId)
    ensures multiset(MemberIds(Appended(e, space)))[id]
            == if e.id == id && Classify(e.definition).Some? && Classify(e.definition).value.space == space then 1 else 0
  {
    var p := Classify(e.definition);
    if p.Some? && p.value.space == space {
      assert MemberIds(Appended(e, space)) == [e.id];
    } else {
      assert MemberIds(Appended(e, space)) == [];
    }
  }

  lemma {:induction false} CandidatesCount(defs: seq<Entry>, space: Space, id: EntityId)
    requires UniqueIds(defs)
    ensures multiset(MemberIds(Candidates(defs, space)))[id]
            == if PlacementOf(defs, id).Some? && PlacementOf(defs, id).value.space == space then 1 else 0
  {
    if defs != [] {
      var front, e := defs[..|defs| - 1], defs[|defs| - 1];
      assert defs == front + [e];
      LookupSnoc(front, e, id);
      CandidatesCount(front, space, id);
      CountConcat(Candidates(front, space), Appended(e, space), id);
      AppendedCount(e, space, id);
      if e.id == id {
        LastIdNotBefore(front, e);
      }
    }
  }

  lemma LastIdNotBefore(front: seq<Entry>, e: Entry)
    requires UniqueIds(front + [e])
    ensures Lookup(front, e.id) == None
  {
    var t := front + [e];
    forall i | 0 <= i < |front| ensures front[i].id != e.id {
      assert t[i] == front[i] && t[|front|] == e;
    }
  }

  lemma {:induction false} CandidatesPlacement(defs: seq<Entry>, space: Space, r: Reg)
    requires UniqueIds(defs) && r in Candidates(defs, space)
    ensures PlacementOf(defs, r.id) == Some(Placement(space, r.address))
  {
    var front, e := defs[..|defs| - 1], defs[|defs| - 1];
    assert defs == front + [e];
    LookupSnoc(front, e, r.id);
    var extra := Appended(e, space);
    if r in Candidates(front, space) {
      CandidatesPlacement(front, space, r);
      if e.id == r.id {
        CandidatesCount(front, space, r.id);
        MemberIdsInCount(Candidates(front, space), r);
        assert false;
      }
    } else {
      assert r in extra;
    }
  }

  lemma MemberIdsInCount(regs: seq<Reg>, r: Reg)
    requires r in regs
    ensures multiset(MemberIds(regs))[r.id] > 0
  {
    var i :| 0 <= i < |regs| && regs[i] == r;
    assert MemberIds(regs)[i] == r.id;
  }

  lemma {:induction false} FlattenConcat(a: seq<Block>, b: seq<Block>)
    ensures Flatten(a + b) == Flatten(a) + Flatten(b)
  {
    if b == [] {
      assert a + b == a;
    } else {
      var front, last := b[..|b| - 1], b[|b| - 1];
      FlattenConcat(a, front);
      var ab := a + b;
      assert ab[..|ab| - 1] == a + front;
      assert ab[|ab| - 1] == last;
      assert Flatten(ab) == Flatten(a + front) + last.members;
      assert Flatten(b) == Flatten(front) + last.members;
    }
  }

  /** The members of one space's blocks are its sorted list's ids. */
  lemma SpaceCount(defs: seq<Entry>, blocks: seq<Block>, maxGap: int, limit: int, space: Space, id: EntityId)
    requires UniqueIds(defs) && IsBlockPlan(defs, blocks, maxGap, limit)
    ensures multiset(Flatten(BlocksIn(blocks, space)))[id]
            == if PlacementOf(defs, id).Some? && PlacementOf(defs, id).value.space == space then 1 else 0
  {
    GreedyPlanPartition(space, SortedCandidates(defs, space), BlocksIn(blocks, space), maxGap, limit);
    SortByAddressSpec(Candidates(defs, space));
    CandidatesCount(defs, space, id);
  }

  /**
   * Every active definition with a coil or register key is a member of exactly one block,
   * and one with neither key is a member of none.
   */
  lemma EachEntityInExactlyOneBlock(defs: seq<Entry>, blocks: seq<Block>, maxGap: int, limit: int, id: EntityId)
    requires UniqueIds(defs) && IsBlockPlan(defs, blocks, maxGap, limit)
    ensures multiset(Flatten(blocks))[id] == if PlacementOf(defs, id).Some? then 1 else 0
  {
    var ib, hb, cb := BlocksIn(blocks, InputSpace), BlocksIn(blocks, HoldingSpace), BlocksIn(blocks, CoilSpace);
    FlattenConcat(ib + hb, cb);
    FlattenConcat(ib, hb);
    SpaceCount(defs, blocks, maxGap, limit, InputSpace, id);
    SpaceCount(defs, blocks, maxGap, limit, HoldingSpace, id);
    SpaceCount(defs, blocks, maxGap, limit, CoilSpace, id);
  }

  /** The addresses of a block's members, as their definitions give them. */
  function MemberAddresses(defs: seq<Entry>, b: Block): seq<int> {
    seq(|b.members|, j requires 0 <= j < |b.members| =>
      match PlacementOf(defs, b.members[j])
      case Some(p) => p.address
      case None => -1)
  }

  lemma {:induction false} BlocksInHas(bs: seq<Block>, b: Block)
    requires b in bs
    ensures b in BlocksIn(bs, b.space)
  {
    var front := bs[..|bs| - 1];
    if b != bs[|bs| - 1] {
      assert b in front;
      BlocksInHas(front, b);
    }
  }

  lemma FitsMembers(defs: seq<Entry>, space: Space, b: Block, i: int, maxGap: int, limit: int)
    requires UniqueIds(defs)
    requires BlockFits(space, SortedCandidates(defs, space), b, i, maxGap, limit)
    ensures forall j :: 0 <= j < |b.members| ==>
              PlacementOf(defs, b.members[j]) == Some(Placement(space, SortedCandidates(defs, space)[i + j].address))
  {
    var regs := SortedCandidates(defs, space);
    SortByAddressSpec(Candidates(defs, space));
    forall j | 0 <= j < |b.members|
      ensures PlacementOf(defs, b.members[j]) == Some(Placement(space, regs[i + j].address))
    {
      var r := regs[i + j];
      assert b.members[j] == MemberIds(regs[i..i + |b.members|])[j] == r.id;
      assert r in multiset(regs);
      CandidatesPlacement(defs, space, r);
    }
  }

  lemma FitsAddressesAre(defs: seq<Entry>, b: Block, i: int, maxGap: int, limit: int)
    requires UniqueIds(defs)
    requires BlockFits(b.space, SortedCandidates(defs, b.space), b, i, maxGap, limit)
    ensures forall j :: 0 <= j < |b.members| ==>
              PlacementOf(defs, b.members[j]).Some? && PlacementOf(defs, b.members[j]).value.space == b.space
    ensures |MemberAddresses(defs, b)| == |b.members|
    ensures forall j :: 0 <= j < |b.members| ==>
              MemberAddresses(defs, b)[j] == SortedCandidates(defs, b.space)[i + j].address
  {
    FitsMembers(defs, b.space, b, i, maxGap, limit);
  }

  lemma FitsAddresses(defs: seq<Entry>, b: Block, i: int, maxGap: int, limit: int)
    requires UniqueIds(defs)
    requires BlockFits(b.space, SortedCandidates(defs, b.space), b, i, maxGap, limit)
    ensures forall j :: 0 <= j < |b.members| ==>
              PlacementOf(defs, b.members[j]).Some? && PlacementOf(defs, b.members[j]).value.space == b.space
    ensures var a := MemberAddresses(defs, b);
            && a[0] == b.start
            && a[|a| - 1] == b.start + b.count - 1
            && (forall j :: 0 < j < |a| ==> 0 <= a[j] - a[j - 1] <= maxGap)
    ensures 1 <= b.count && (b.count == 1 || b.count < limit)
  {
    SortedCandidatesSorted(defs, b.space);
    FitsAddressesAre(defs, b, i, maxGap, limit);
    AddressesOfFit(MemberAddresses(defs, b), b.space, SortedCandidates(defs, b.space), b, i, maxGap, limit);
  }

  lemma SortedCandidatesSorted(defs: seq<Entry>, space: Space)
    ensures SortedByAddress(SortedCandidates(defs, space))
  {
    SortByAddressSpec(Candidates(defs, space));
  }

  lemma AddressesOfFit(a: seq<int>, space: Space, regs: seq<Reg>, b: Block, i: int, maxGap: int, limit: int)
    requires BlockFits(space, regs, b, i, maxGap, limit) && SortedByAddress(regs)
    requires |a| == |b.members| && forall j :: 0 <= j < |a| ==> a[j] == regs[i + j].address
    ensures a[0] == b.start && a[|a| - 1] == b.start + b.count - 1
    ensures forall j :: 0 < j < |a| ==> 0 <= a[j] - a[j - 1] <= maxGap
    ensures 1 <= b.count && (b.count == 1 || b.count < limit)
  {
    FitsBounds(space, regs, b, i, maxGap, limit);
    FitsGaps(space, regs, b, i, maxGap, limit);
    forall j | 0 < j < |a| ensures 0 <= a[j] - a[j - 1] <= maxGap {
      assert a[j] == regs[i + j].address && a[j - 1] == regs[i + j - 1].address;
    }
  }

  /**
   * Each block is a non-empty run of definitions of the block's own space, ordered by
   * address, starting at the block start and ending at its last address; neighbours differ
   * by at most `maxGap`, and a block of more than one register stays under `limit`.
   */
  lemma BlockMembersPlaced(defs: seq<Entry>, blocks: seq<Block>, maxGap: int, limit: int, b: Block)
    requires UniqueIds(defs) && IsBlockPlan(defs, blocks, maxGap, limit) && b in blocks
    ensures forall j :: 0 <= j < |b.members| ==>
              PlacementOf(defs, b.members[j]).Some? && PlacementOf(defs, b.members[j]).value.space == b.space
    ensures var a := MemberAddresses(defs, b);
            && a != []
            && a[0] == b.start
            && a[|a| - 1] == b.start + b.count - 1
            && (forall j :: 0 < j < |a| ==> 0 <= a[j] - a[j - 1] <= maxGap)
    ensures 1 <= b.count && (b.count == 1 || b.count < limit)
  {
    var bs := BlocksIn(blocks, b.space);
    BlocksInHas(blocks, b);
    var k :| 0 <= k < |bs| && bs[k] == b;
    assert FitsAt(b.space, SortedCandidates(defs, b.space), bs, k, maxGap, limit);
    FitsAddresses(defs, b, |Flatten(bs[..k])|, maxGap, limit);
  }
}
