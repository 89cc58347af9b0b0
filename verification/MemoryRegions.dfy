/** The walk over the regions of a process's address space. */
module MemoryRegions {
  const VM_PROT_ANY := 0x2000

  datatype Region = Region(start: nat, size: nat, prot: nat) {
    function End(): (end: nat) { start + size }
  }

  /**
   What vm_region_recurse answers about an address at a nesting depth: KERN_INVALID_ADDRESS;
   or a status, KERN_SUCCESS or not, with the address, size and depth it leaves in its
   in/out parameters and the info it fills in.
   */
  datatype Answer =
    | InvalidAddress
    | Answer(success: bool, start: nat, size: nat, depth: nat, isSubmap: bool, prot: nat)
  {
    predicate Succeeds() { Answer? && success }

    /** Ends the loop, but only after its contents, which then mean nothing, have been looked at. */
    predicate Fails() { Answer? && !success }
  }

  type RegionQuery = (nat, nat) -> Answer

  /** The addresses and depths at which a walk asks. */
  type Stops = iset<(nat, nat)>

  /** Where the loop asks next after a successful answer. */
  function NextStop(r: Answer): (stop: (nat, nat))
    requires r.Answer?
  {
    if r.isSubmap then (r.start, r.depth + 1) else (r.start + r.size, r.depth)
  }

  /** `stops` holds the first question and each that follows from one it holds. */
  ghost predicate Closed(q: RegionQuery, stops: Stops) {
    && (0, 1) in stops
    && forall a: nat, d: nat :: (a, d) in stops && q(a, d).Succeeds() ==> NextStop(q(a, d)) in stops
  }

  /**
   As far as the walk asks: a successful answer lies ahead, within an address space that ends
   at `limit`, and submaps are nested less than `deepest` deep.
   */
  ghost predicate Walkable(q: RegionQuery, stops: Stops, limit: nat, deepest: nat) {
    forall a: nat, d: nat :: (a, d) in stops && q(a, d).Succeeds() ==>
      && q(a, d).start >= a && q(a, d).size > 0 && q(a, d).start + q(a, d).size <= limit
      && (q(a, d).isSubmap ==> d <= q(a, d).depth < deepest)
  }

  /** Leaf regions in ascending order, none overlapping another. */
  ghost predicate Ascending(rs: seq<Region>) {
    forall i, j :: 0 <= i < j < |rs| ==> rs[i].size > 0 && rs[i].End() <= rs[j].start
  }

  /** Position of the first of `leaves` from `from` on that starts at or after `a`. */
  ghost function NextLeaf(leaves: seq<Region>, a: nat, from: nat): (j: nat)
    requires from <= |leaves|
    ensures from <= j <= |leaves|
    ensures j < |leaves| ==> leaves[j].start >= a
    ensures forall l :: from <= l < j ==> leaves[l].start < a
    decreases |leaves| - from
  {
    if from == |leaves| || leaves[from].start >= a then from else NextLeaf(leaves, a, from + 1)
  }

  /** `r`, said about `a`, fits an address space with the leaf regions `leaves`; a failure always does. */
  ghost predicate Fits(r: Answer, leaves: seq<Region>, a: nat) {
    var j := NextLeaf(leaves, a, 0);
    match r
    case InvalidAddress => j == |leaves|
    case Answer(success, start, size, _, isSubmap, prot) =>
      success ==> if isSubmap then j < |leaves| ==> start <= leaves[j].start
                  else j < |leaves| && leaves[j] == Region(start, size, prot)
  }

  /**
   As far as the walk asks, the kernel describes the leaf regions `leaves`: a successful answer
   is the first leaf from the address on, or a submap that starts no later than it; only past
   the last leaf is the address invalid.
   */
  ghost predicate Describes(q: RegionQuery, stops: Stops, leaves: seq<Region>) {
    forall a: nat, d: nat :: (a, d) in stops ==> Fits(q(a, d), leaves, a)
  }

  /** The premises of the walk, from what each stop contributes. */
  lemma Premises(q: RegionQuery, stops: Stops, limit: nat, deepest: nat, leaves: seq<Region>)
    requires (0, 1) in stops
    requires forall a: nat, d: nat :: (a, d) in stops ==> Fits(q(a, d), leaves, a)
    requires forall a: nat, d: nat :: (a, d) in stops && q(a, d).Answer? ==>
               && q(a, d).start >= a && q(a, d).size > 0 && q(a, d).start + q(a, d).size <= limit
               && (q(a, d).isSubmap ==> d <= q(a, d).depth < deepest)
               && NextStop(q(a, d)) in stops
    ensures Closed(q, stops) && Walkable(q, stops, limit, deepest) && Describes(q, stops, leaves)
  {
    hide Fits, NextStop;
  }

  predicate Wanted(r: Region, options: nat) {
    r.prot == options || options == VM_PROT_ANY
  }

  function Filter(rs: seq<Region>, options: nat): (wanted: seq<Region>) {
    if rs == [] then []
    else Filter(rs[..|rs| - 1], options) + if Wanted(rs[|rs| - 1], options) then [rs[|rs| - 1]] else []
  }

  lemma FilterNext(rs: seq<Region>, options: nat, n: nat)
    requires n < |rs|
    ensures Filter(rs[..n + 1], options) == Filter(rs[..n], options) + if Wanted(rs[n], options) then [rs[n]] else []
  {
    assert rs[..n + 1][..n] == rs[..n];
  }

  /** What is returned is itself in ascending order without overlaps. */
  lemma {:induction false} FilterAscending(rs: seq<Region>, options: nat)
    requires Ascending(rs)
    ensures Ascending(Filter(rs, options))
    ensures forall r :: r in Filter(rs, options) <==> r in rs && (r.prot == options || options == 0x2000)
  {
    if rs != [] {
      var init, last := rs[..|rs| - 1], rs[|rs| - 1];
      FilterAscending(init, options);
      assert rs == init + [last];
      forall r | r in Filter(init, options) ensures r.size > 0 && r.End() <= last.start {
        var i :| 0 <= i < |init| && init[i] == r;
        assert rs[i] == r;
      }
    }
  }

  lemma NextLeafUnique(leaves: seq<Region>, a: nat, j: nat)
    requires Ascending(leaves) && j <= |leaves|
    requires j < |leaves| ==> leaves[j].start >= a
    requires forall l :: 0 <= l < j ==> leaves[l].start < a
    ensures NextLeaf(leaves, a, 0) == j
  {
    var n := NextLeaf(leaves, a, 0);
    assert n == j;
  }

  /** Each successful answer uses up address space or nesting, and leads to another stop. */
  lemma AnswerProgresses(q: RegionQuery, stops: Stops, limit: nat, deepest: nat, a: nat, d: nat)
    requires Closed(q, stops) && Walkable(q, stops, limit, deepest) && (a, d) in stops && q(a, d).Succeeds()
    ensures var r := q(a, d);
      && r.start >= a && r.size > 0 && r.start + r.size <= limit
      && (r.isSubmap ==> d <= r.depth < deepest)
      && (r.isSubmap ==> (r.start, r.depth + 1) in stops)
      && (!r.isSubmap ==> (r.start + r.size, r.depth) in stops)
  {
    assert NextStop(q(a, d)) in stops;
  }

  /** Where the walk stands after an answer: still before the same leaf, or past it. */
  lemma AnswerDescribes(q: RegionQuery, stops: Stops, leaves: seq<Region>, a: nat, d: nat, seen: nat)
    requires Ascending(leaves) && Describes(q, stops, leaves) && (a, d) in stops && NextLeaf(leaves, a, 0) == seen
    requires q(a, d).Succeeds() ==> q(a, d).start >= a && q(a, d).size > 0
    ensures var r := q(a, d);
      && (r.InvalidAddress? ==> seen == |leaves|)
      && (r.Succeeds() && r.isSubmap ==> NextLeaf(leaves, r.start, 0) == seen)
      && (r.Succeeds() && !r.isSubmap ==>
            && seen < |leaves| && leaves[seen] == Region(r.start, r.size, r.prot)
            && NextLeaf(leaves, r.start + r.size, 0) == seen + 1)
  {
    var r := q(a, d);
    assert Fits(r, leaves, a);
    if r.Succeeds() {
      if r.isSubmap { NextLeafUnique(leaves, r.start, seen); }
      else { NextLeafUnique(leaves, r.start + r.size, seen + 1); }
    }
  }

  /** The walk at `a` has passed the first `seen` leaves and kept the wanted ones. */
  ghost predicate Passed(leaves: seq<Region>, options: nat, a: nat, seen: nat, regions: seq<Region>) {
    seen <= |leaves| && NextLeaf(leaves, a, 0) == seen && regions == Filter(leaves[..seen], options)
  }

  /** What one turn of the loop keeps, on a kernel that describes `leaves`. */
  lemma TurnPasses(q: RegionQuery, stops: Stops, leaves: seq<Region>, options: nat,
                   a: nat, d: nat, seen: nat, regions: seq<Region>)
    requires Ascending(leaves) && Describes(q, stops, leaves) && (a, d) in stops
    requires q(a, d).Succeeds() ==> q(a, d).start >= a && q(a, d).size > 0
    requires Passed(leaves, options, a, seen, regions)
    ensures var r := q(a, d);
      && (r.InvalidAddress? ==> regions == Filter(leaves, options))
      && (r.Succeeds() && r.isSubmap ==> Passed(leaves, options, r.start, seen, regions))
      && (r.Succeeds() && !r.isSubmap ==>
            Passed(leaves, options, r.start + r.size, seen + 1, regions + LeafOf(r, options)))
  {
    AnswerDescribes(q, stops, leaves, a, d, seen);
    assert leaves[..|leaves|] == leaves;
    if seen < |leaves| { FilterNext(leaves, options, seen); }
  }

  /** The region an answer adds to the result, whatever its status. */
  function LeafOf(r: Answer, options: nat): (added: seq<Region>) {
    if r.InvalidAddress? || r.isSubmap || !Wanted(Region(r.start, r.size, r.prot), options) then []
    else [Region(r.start, r.size, r.prot)]
  }

  /**
   The walk came to an end at the stop `end`: there it found the address invalid, or got
   another status.
   */
  ghost predicate Ended(q: RegionQuery, stops: Stops, end: (nat, nat)) {
    end in stops && !q(end.0, end.1).Succeeds()
  }

  /** What a walk that ended at `end` returns: the wanted leaves before it, and what a failure made it add. */
  ghost predicate IsWalked(q: RegionQuery, leaves: seq<Region>, options: nat, end: (nat, nat), regions: seq<Region>) {
    var answer := q(end.0, end.1);
    && regions == Filter(leaves[..NextLeaf(leaves, end.0, 0)], options) + LeafOf(answer, options)
    && (answer.InvalidAddress? ==> regions == Filter(leaves, options))
  }

  lemma EndIsWalked(q: RegionQuery, stops: Stops, leaves: seq<Region>, options: nat,
                    end: (nat, nat), seen: nat, regions: seq<Region>)
    requires Ascending(leaves) && Describes(q, stops, leaves) && Ended(q, stops, end)
    requires Passed(leaves, options, end.0, seen, regions)
    ensures IsWalked(q, leaves, options, end, regions + LeafOf(q(end.0, end.1), options))
  {
    TurnPasses(q, stops, leaves, options, end.0, end.1, seen, regions);
    assert regions + [] == regions;
  }

  /** Where one turn of the loop leads, whether or not the kernel is `known` to describe `leaves`. */
  lemma TurnLeads(q: RegionQuery, stops: Stops, limit: nat, deepest: nat, leaves: seq<Region>, options: nat,
                  known: bool, a: nat, d: nat, seen: nat, regions: seq<Region>)
    requires Closed(q, stops) && Walkable(q, stops, limit, deepest) && (a, d) in stops
    requires known ==> Ascending(leaves) && Describes(q, stops, leaves) && Passed(leaves, options, a, seen, regions)
    ensures var r := q(a, d);
      if r.InvalidAddress? then
        Ended(q, stops, (a, d)) && (known ==> IsWalked(q, leaves, options, (a, d), regions))
      else
        var leaf := Region(r.start, r.size, r.prot);
        var more := if r.isSubmap || !Wanted(leaf, options) then regions else regions + [leaf];
        if !r.success then
          Ended(q, stops, (a, d)) && (known ==> IsWalked(q, leaves, options, (a, d), more))
        else if r.isSubmap then
          && a <= r.start <= limit && d <= r.depth < deepest && (r.start, r.depth + 1) in stops
          && (known ==> Passed(leaves, options, r.start, seen, more))
        else
          && a < r.start + r.size <= limit && (r.start + r.size, r.depth) in stops
          && (known ==> Passed(leaves, options, r.start + r.size, seen + 1, more))
  {
    var r := q(a, d);
    assert regions + [] == regions;
    if r.Succeeds() { AnswerProgresses(q, stops, limit, deepest, a, d); }
    if known {
      if r.Succeeds() { TurnPasses(q, stops, leaves, options, a, d, seen, regions); }
      else { EndIsWalked(q, stops, leaves, options, (a, d), seen, regions); }
    }
    hide IsWalked, Passed, Closed, Walkable, Describes, Ascending;
  }

  /** Every answer the walk gets is a success, or that the address is invalid. */
  ghost predicate NeverFails(q: RegionQuery, stops: Stops) {
    forall a: nat, d: nat :: (a, d) in stops ==> !q(a, d).Fails()
  }

  /** What a walk returns, in the numbers of the source. */
  lemma WalkedIs(q: RegionQuery, stops: Stops, leaves: seq<Region>, options: nat,
                 end: (nat, nat), regions: seq<Region>)
    requires Ended(q, stops, end) && Ascending(leaves) && IsWalked(q, leaves, options, end, regions)
    ensures NeverFails(q, stops) ==>
              && regions == Filter(leaves, options) && Ascending(regions)
              && forall r :: r in regions <==> r in leaves && (r.prot == options || options == 0x2000)
    ensures var seen, answer := NextLeaf(leaves, end.0, 0), q(end.0, end.1);
      regions == Filter(leaves[..seen], options)
                 + if answer.Fails() && !answer.isSubmap && (answer.prot == options || options == 0x2000)
                   then [Region(answer.start, answer.size, answer.prot)] else []
  {
    assert (end.0, end.1) == end;
    FilterAscending(leaves, options);
  }

  /**
   GetRegions ends, because either address space or nesting is used up. If the walk ends with
   KERN_INVALID_ADDRESS it returns exactly the leaf regions with the wanted protection, in
   order; if with another status, those before the place where that happened and at most one
   more, made of what the kernel left behind. Nothing is asked of the kernel but at the walk's
   own stops.
   */
  method GetRegions(q: RegionQuery, options: nat,
                    ghost stops: Stops, ghost limit: nat, ghost deepest: nat, ghost leaves: seq<Region>)
    returns (regions: seq<Region>, ghost end: (nat, nat))
    requires Closed(q, stops) && Walkable(q, stops, limit, deepest)
    ensures Ended(q, stops, end)
    ensures Ascending(leaves) && Describes(q, stops, leaves) ==> IsWalked(q, leaves, options, end, regions)
    ensures Ascending(leaves) && Describes(q, stops, leaves) && NeverFails(q, stops) ==>
              && regions == Filter(leaves, options) && Ascending(regions)
              && forall r :: r in regions <==> r in leaves && (r.prot == options || options == 0x2000)
    ensures Ascending(leaves) && Describes(q, stops, leaves) ==>
              var seen, answer := NextLeaf(leaves, end.0, 0), q(end.0, end.1);
              regions == Filter(leaves[..seen], options)
                         + if answer.Fails() && !answer.isSubmap && (answer.prot == options || options == 0x2000)
                           then [Region(answer.start, answer.size, answer.prot)] else []
  {
    regions, end := [], (0, 1);
    ghost var known := Ascending(leaves) && Describes(q, stops, leaves);
    ghost var seen := 0;
    var success, address, depth, size := true, 0, 1, 0;
    assert (0, 1) in stops && leaves[..0] == [] && Passed(leaves, options, 0, 0, []);
    hide *;
    while success
      invariant success ==> (address, depth) in stops && (address <= limit || address == 0)
      invariant success && known ==> Passed(leaves, options, address, seen, regions)
      invariant !success ==> Ended(q, stops, end) && (known ==> IsWalked(q, leaves, options, end, regions))
      decreases success, limit - address, deepest - depth
    {
      end := (address, depth);
      var answer := q(address, depth);
      TurnLeads(q, stops, limit, deepest, leaves, options, known, address, depth, seen, regions);
      if answer.InvalidAddress? {
        break;
      }
      success, address, size, depth := answer.success, answer.start, answer.size, answer.depth;
      if answer.isSubmap {
        depth := depth + 1;
        continue;
      }
      if Wanted(Region(address, size, answer.prot), options) {
        regions := regions + [Region(address, size, answer.prot)];
      }
      address := address + size;
      seen := seen + 1;
    }
    if known { WalkedIs(q, stops, leaves, options, end, regions); }
  }

  // ---------- A kernel with submaps ----------

  /**
   An address space: its leaf regions, and for each the starts of the submaps around it,
   outermost first.
   */
  datatype Space = Space(leaves: seq<Region>, submaps: seq<seq<nat>>) {
    /**
     Submaps start in order before their leaf, and those around a leaf but not around the one
     before it start after that one.
     */
    ghost predicate Valid(limit: nat, deepest: nat) {
      && |submaps| == |leaves| && Ascending(leaves)
      && (forall i :: 0 <= i < |leaves| ==> leaves[i].size > 0 && leaves[i].End() <= limit && |submaps[i]| <= deepest)
      && (forall i, d :: 0 <= i < |leaves| && 0 <= d < |submaps[i]| ==> submaps[i][d] <= leaves[i].start)
      && (forall i, d, e :: 0 <= i < |leaves| && 0 <= d < e < |submaps[i]| ==> submaps[i][d] <= submaps[i][e])
      && (forall i, d :: 1 <= i < |leaves| && |submaps[i - 1]| <= d < |submaps[i]| ==>
            leaves[i - 1].End() <= submaps[i][d])
    }

    /** Position of the first leaf from `from` on that contains `a` or lies after it. */
    function LeafAt(a: nat, from: nat): (j: nat)
      requires from <= |leaves|
      ensures from <= j <= |leaves|
      ensures j < |leaves| ==> a < leaves[j].End()
      ensures forall l :: from <= l < j ==> leaves[l].End() <= a
      decreases |leaves| - from
    {
      if from == |leaves| || a < leaves[from].End() then from else LeafAt(a, from + 1)
    }

    /** Submaps start before the leaf they are around. */
    predicate Regular() {
      && |submaps| == |leaves|
      && forall i, d :: 0 <= i < |leaves| && 0 <= d < |submaps[i]| ==> submaps[i][d] <= leaves[i].start
    }

    /**
     Asked inside a region the kernel answers with that region, so that the answer can start
     before the address; asked less deep than a leaf is nested, with the submap around it at
     that depth.
     */
    function Ask(a: nat, d: nat): (r: Answer)
      requires Regular()
    {
      var j := LeafAt(a, 0);
      if j == |leaves| then InvalidAddress
      else if d < |submaps[j]| then
        Answer(true, submaps[j][d], leaves[j].End() - submaps[j][d], d, true, leaves[j].prot)
      else Answer(true, leaves[j].start, leaves[j].size, |submaps[j]|, false, leaves[j].prot)
    }

    /** Not inside a leaf, and not inside a submap around the next leaf that is too deep to see into. */
    ghost predicate IsStop(a: nat, d: nat)
      requires |submaps| == |leaves|
    {
      var j := LeafAt(a, 0);
      j < |leaves| ==> a <= leaves[j].start && (d < |submaps[j]| ==> a <= submaps[j][d])
    }

    ghost function AllStops(): (stops: Stops)
      requires |submaps| == |leaves|
    {
      iset a: nat, d: nat | IsStop(a, d) :: (a, d)
    }
  }

  /** The kernel of an address space. */
  function SpaceKernel(s: Space): (q: RegionQuery)
    requires s.Regular()
  {
    (a: nat, d: nat) => s.Ask(a, d)
  }

  lemma LeafAtUnique(s: Space, a: nat, j: nat)
    requires Ascending(s.leaves) && j <= |s.leaves|
    requires j < |s.leaves| ==> a < s.leaves[j].End()
    requires forall l :: 0 <= l < j ==> s.leaves[l].End() <= a
    ensures s.LeafAt(a, 0) == j
  {
    var n := s.LeafAt(a, 0);
    assert n == j;
  }

  /** From a stop, an answer leads to a stop. */
  lemma StopsLeadToStops(s: Space, limit: nat, deepest: nat, a: nat, d: nat)
    requires s.Valid(limit, deepest) && s.IsStop(a, d) && s.Ask(a, d).Answer?
    ensures var (b, e) := NextStop(s.Ask(a, d)); s.IsStop(b, e)
  {
    var j := s.LeafAt(a, 0);
    if d < |s.submaps[j]| {
      var b := s.submaps[j][d];
      assert a <= b <= s.leaves[j].start;
      LeafAtUnique(s, b, j);
      assert NextStop(s.Ask(a, d)) == (b, d + 1);
    } else {
      var b := s.leaves[j].End();
      LeafAtUnique(s, b, j + 1);
      assert NextStop(s.Ask(a, d)) == (b, |s.submaps[j]|);
    }
  }

  /** At a stop, the leaf found is the next to start. */
  lemma StopsSeeNextLeaf(s: Space, limit: nat, deepest: nat, a: nat, d: nat)
    requires s.Valid(limit, deepest) && s.IsStop(a, d)
    ensures NextLeaf(s.leaves, a, 0) == s.LeafAt(a, 0)
  {
    NextLeafUnique(s.leaves, a, s.LeafAt(a, 0));
  }

  /** Asked anywhere inside a region, deep enough to see it, the kernel answers with the whole region. */
  lemma InsideIsAnsweredByRegion(s: Space, limit: nat, deepest: nat, j: nat, a: nat, d: nat)
    requires s.Valid(limit, deepest) && j < |s.leaves| && |s.submaps[j]| <= d
    requires s.leaves[j].start <= a < s.leaves[j].End()
    ensures s.Ask(a, d) == Answer(true, s.leaves[j].start, s.leaves[j].size, |s.submaps[j]|, false, s.leaves[j].prot)
  {
    LeafAtUnique(s, a, j);
  }

  /** At a stop, the answer lies ahead and fits the leaves. */
  lemma StopsAreAnswered(s: Space, limit: nat, deepest: nat, a: nat, d: nat)
    requires s.Valid(limit, deepest) && s.IsStop(a, d)
    ensures Fits(s.Ask(a, d), s.leaves, a)
    ensures var r := s.Ask(a, d);
      r.Answer? ==>
        && r.start >= a && r.size > 0 && r.start + r.size <= limit
        && (r.isSubmap ==> d <= r.depth < deepest)
  {
    StopsSeeNextLeaf(s, limit, deepest, a, d);
  }

  /** What a stop contributes to the premises of the walk. */
  lemma StopIsWalked(s: Space, limit: nat, deepest: nat, a: nat, d: nat)
    requires s.Valid(limit, deepest) && s.IsStop(a, d)
    ensures var r := SpaceKernel(s)(a, d);
      && Fits(r, s.leaves, a)
      && (r.Answer? ==>
            && r.start >= a && r.size > 0 && r.start + r.size <= limit
            && (r.isSubmap ==> d <= r.depth < deepest)
            && NextStop(r) in s.AllStops())
  {
    StopsAreAnswered(s, limit, deepest, a, d);
    if s.Ask(a, d).Answer? { StopsLeadToStops(s, limit, deepest, a, d); }
    hide Space.Ask, Space.IsStop, Space.Valid, Fits;
  }

  /**
   The premises of the walk hold of every such address space, with regions of any size and
   submaps nested to any depth, although its kernel answers from inside a region with that
   region; and it never fails, so that the walk ends past the last leaf.
   */
  lemma SpaceIsWalked(s: Space, limit: nat, deepest: nat)
    requires s.Valid(limit, deepest)
    ensures Closed(SpaceKernel(s), s.AllStops())
    ensures Walkable(SpaceKernel(s), s.AllStops(), limit, deepest)
    ensures Describes(SpaceKernel(s), s.AllStops(), s.leaves)
    ensures forall a: nat, d: nat :: !SpaceKernel(s)(a, d).Fails()
  {
    var q, stops := SpaceKernel(s), s.AllStops();
    assert (0, 1) in stops;
    forall a: nat, d: nat ensures !q(a, d).Fails() { assert q(a, d) == s.Ask(a, d); }
    hide Space.Ask, Space.Valid, Fits, NextStop, SpaceKernel;
    forall a: nat, d: nat | (a, d) in stops
      ensures Fits(q(a, d), s.leaves, a)
      ensures q(a, d).Answer? ==>
                && q(a, d).start >= a && q(a, d).size > 0 && q(a, d).start + q(a, d).size <= limit
                && (q(a, d).isSubmap ==> d <= q(a, d).depth < deepest)
                && NextStop(q(a, d)) in stops
    {
      StopIsWalked(s, limit, deepest, a, d);
    }
    hide *;
    Premises(q, stops, limit, deepest, s.leaves);
  }
}
