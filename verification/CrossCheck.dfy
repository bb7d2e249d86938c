/** The three-way heap verdict: free chain, linear extent and kernel counter
    (freertos/heap.py, `cross_validate` and the walks of `heap_snapshot`). */
module CrossCheck {
  import opened Common
  import opened HeapWalks
  import opened WalkMeaning

  /** Free blocks the chain misses and chain members the extent does not call free. */
  datatype Difference = Difference(missing: set<int>, unexpected: set<int>)

  datatype Verdict =
    | Ok
    | RegionsUnavailable
    | PartialExtent
    | PartMissing
    | CorruptWalk(free: Option<Fault>, linear: Option<Fault>)
    | TruncatedWalk
    | BytesDiffer(chainBytes: Option<int>, extentBytes: Option<int>, counter: int, at: Option<Difference>)
    | CountsDiffer(chainBlocks: nat, extentBlocks: nat, at: Option<Difference>)
    | AddressesDiffer(at: Option<Difference>)

  function FreeOnly(blocks: seq<Block>): set<int> {
    set i | 0 <= i < |blocks| && !blocks[i].inUse :: blocks[i].address
  }

  function Located(chain: set<int>, extent: set<int>): Option<Difference> {
    Some(Difference(extent - chain, chain - extent))
  }

  function CrossValidate(freeList: Option<Walk>, linear: Option<Walk>, counter: Option<int>, geom: Geometry): Verdict {
    if geom.kind == 5 && (linear.None? || linear.value.blocks == []) then RegionsUnavailable
    else if geom.kind == 5 && linear.value.incomplete.Some? then PartialExtent
    else if freeList.None? || linear.None? || counter.None? then PartMissing
    else
      var chain, extent := freeList.value, linear.value;
      if chain.corrupt.Some? || extent.corrupt.Some? then CorruptWalk(chain.corrupt, extent.corrupt)
      else if chain.truncated || extent.truncated then TruncatedWalk
      else
        var chainAddresses, extentAddresses := AddressSet(chain.blocks), FreeOnly(extent.blocks);
        var at := if geom.mask != 0 && chainAddresses != extentAddresses
                  then Located(chainAddresses, extentAddresses) else None;
        if chain.freeBytes != extent.freeBytes || counter != chain.freeBytes
        then BytesDiffer(chain.freeBytes, extent.freeBytes, counter.value, at)
        else if chain.freeBlocks != extent.freeBlocks
        then CountsDiffer(chain.freeBlocks, extent.freeBlocks, at)
        else if at.Some? then AddressesDiffer(at)
        else Verdict.Ok
  }

  /** The verdict over one memory image: the chain is walked first because
      builds without an allocation bit tell free blocks by chain membership. */
  function Judge(geom: Geometry, image: Image, counter: Option<int>): Verdict {
    var chain := FreeWalk(geom, image);
    CrossValidate(Some(chain), Some(LinearWalk(geom, image, Some(chain))), counter, geom)
  }

  method Snapshot(geom: Geometry, image: Image, counter: Option<int>)
    returns (verdict: Verdict, chain: Walk, extent: Walk)
    ensures chain == FreeWalk(geom, image) && extent == LinearWalk(geom, image, Some(chain))
    ensures verdict == Judge(geom, image, counter)
  {
    chain := WalkFreeList(geom, image);
    extent := WalkLinear(geom, image, Some(chain));
    verdict := CrossValidate(Some(chain), Some(extent), counter, geom);
  }

  // ---- soundness ------------------------------------------------------------------------

  /** What an "ok" verdict promises about the heap. */
  ghost predicate Consistent(geom: Geometry, image: Image, counter: Option<int>) {
    && geom.linearLow.Some? && ExtentEnd(geom).Some?
    && var chain, extent := FreeWalk(geom, image).blocks, LinearWalk(geom, image, Some(FreeWalk(geom, image))).blocks;
       && Tiled(extent, geom.linearLow.value, ExtentEnd(geom).value)
       && SameFreeBlocks(chain, extent)
       && counter == Some(ExtentEnd(geom).value - geom.linearLow.value - Bytes(extent, true))
  }

  /** The chain visits exactly the extent's free blocks, each once and with the size the extent gives it. */
  ghost predicate SameFreeBlocks(chain: seq<Block>, extent: seq<Block>) {
    && DistinctAddresses(chain)
    && (forall i :: 0 <= i < |chain| ==> FreeTwin(extent, chain[i]))
    && (forall j :: 0 <= j < |extent| && !extent[j].inUse ==> ChainTwin(chain, extent[j]))
  }

  ghost predicate FreeTwin(extent: seq<Block>, block: Block) {
    exists j :: 0 <= j < |extent| && !extent[j].inUse && extent[j].address == block.address
        && extent[j].size == block.size
  }

  ghost predicate ChainTwin(chain: seq<Block>, block: Block) {
    exists i :: 0 <= i < |chain| && chain[i].address == block.address && chain[i].size == block.size
  }

  /** A clean check ran on real walks. */
  lemma OkMeansWalked(geom: Geometry, image: Image, counter: Option<int>)
    requires geom.kind in {2, 4, 5} && Judge(geom, image, counter) == Verdict.Ok
    ensures FreeWalkRuns(geom) && LinearWalkRuns(geom) && ExtentEnd(geom).Some?
    ensures var chain := FreeWalk(geom, image);
            var extent := LinearWalk(geom, image, Some(chain));
            && FreeChain(geom, image, chain.blocks) && CountsFree(chain) && CountsLinear(extent)
            && Extent(geom, image, Some(AddressSet(chain.blocks)), geom.heapLimit.value, extent.blocks,
                      geom.linearLow.value, ExtentEnd(geom).value)
  {
    var chain := FreeWalk(geom, image);
    assert FreeWalkRuns(geom);
    FreeWalkMeans(geom, image);
    assert LinearWalkRuns(geom);
    LinearWalkMeans(geom, image, Some(chain));
  }

  lemma FreeAddressKnown(geom: Geometry, image: Image, chain: seq<Block>, extent: seq<Block>, i: int, j: int)
    requires geom.heapLow.Some? && geom.freeEnd.Some? && geom.heapLimit.Some? && geom.linearLow.Some?
              && ExtentEnd(geom).Some?
    requires FreeChain(geom, image, chain)
    requires Extent(geom, image, Some(AddressSet(chain)), geom.heapLimit.value, extent, geom.linearLow.value,
              ExtentEnd(geom).value)
    requires 0 <= i < |chain| && 0 <= j < |extent| && chain[i].address == extent[j].address
    ensures chain[i].size == extent[j].size && !extent[j].inUse
  {
    assert GoodFree(geom, image, chain[i]);
    assert GoodLinear(geom, image, Some(AddressSet(chain)), geom.heapLimit.value, extent[j]);
    InAddressSet(chain, extent[j].address);
  }

  lemma {:induction false} AddressCount(blocks: seq<Block>)
    requires DistinctAddresses(blocks)
    ensures |AddressSet(blocks)| == |blocks|
  {
    if blocks == [] {
      assert AddressSet(blocks) == {};
    } else {
      var n := |blocks| - 1;
      AddressCount(blocks[..n]);
      AddressSetAppend(blocks[..n], blocks[n]);
      assert blocks == blocks[..n] + [blocks[n]];
      InAddressSet(blocks[..n], blocks[n].address);
    }
  }

  lemma FreeOnlyAppend(blocks: seq<Block>, block: Block)
    ensures FreeOnly(blocks + [block]) == FreeOnly(blocks) + (if block.inUse then {} else {block.address})
  {
    var all := blocks + [block];
    forall a ensures a in FreeOnly(all) <==> a in FreeOnly(blocks) + (if block.inUse then {} else {block.address}) {
      if a in FreeOnly(blocks) {
        var i :| 0 <= i < |blocks| && !blocks[i].inUse && blocks[i].address == a;
        assert all[i].address == a;
      }
      assert all[|blocks|] == block;
    }
  }

  lemma FreeOnlyWithin(blocks: seq<Block>, low: int, high: int)
    requires Tiled(blocks, low, high)
    ensures forall a :: a in FreeOnly(blocks) ==> low <= a < high
  {
    TiledAscends(blocks, low, high);
  }

  lemma {:induction false} FreeOnlyCount(blocks: seq<Block>, low: int, high: int)
    requires Tiled(blocks, low, high)
    ensures |FreeOnly(blocks)| == FreeCount(blocks)
  {
    if blocks == [] {
      assert FreeOnly(blocks) == {};
    } else {
      var n := |blocks| - 1;
      var front, last := blocks[..n], blocks[n];
      TiledFront(blocks, low, high);
      FreeOnlyCount(front, low, last.address);
      FreeOnlyWithin(front, low, last.address);
      FreeOnlyAppend(front, last);
      assert blocks == front + [last];
    }
  }

  /** Both address sets coincide: compared outright where sizes carry a bit, and
      forced by membership and the block counts where they do not. */
  lemma OkMeansSameAddresses(geom: Geometry, image: Image, counter: Option<int>)
    requires geom.kind in {2, 4, 5} && Judge(geom, image, counter) == Verdict.Ok
    ensures var chain := FreeWalk(geom, image);
            AddressSet(chain.blocks) == FreeOnly(LinearWalk(geom, image, Some(chain)).blocks)
  {
    OkMeansWalked(geom, image, counter);
    var chain := FreeWalk(geom, image);
    var extent := LinearWalk(geom, image, Some(chain));
    if geom.mask == 0 {
      AddressCount(chain.blocks);
      FreeOnlyCount(extent.blocks, geom.linearLow.value, ExtentEnd(geom).value);
      forall a | a in FreeOnly(extent.blocks) ensures a in AddressSet(chain.blocks) {
        var j :| 0 <= j < |extent.blocks| && !extent.blocks[j].inUse && extent.blocks[j].address == a;
        assert GoodLinear(geom, image, Some(AddressSet(chain.blocks)), geom.heapLimit.value, extent.blocks[j]);
      }
      SubsetEqual(FreeOnly(extent.blocks), AddressSet(chain.blocks));
    }
  }

  lemma SameAddressesSameBlocks(geom: Geometry, image: Image, chain: seq<Block>, extent: seq<Block>)
    requires geom.heapLow.Some? && geom.freeEnd.Some? && geom.heapLimit.Some? && geom.linearLow.Some?
              && ExtentEnd(geom).Some?
    requires FreeChain(geom, image, chain)
    requires Extent(geom, image, Some(AddressSet(chain)), geom.heapLimit.value, extent, geom.linearLow.value,
              ExtentEnd(geom).value)
    requires AddressSet(chain) == FreeOnly(extent)
    ensures SameFreeBlocks(chain, extent)
  {
    forall i | 0 <= i < |chain| ensures FreeTwin(extent, chain[i]) {
      InAddressSet(chain, chain[i].address);
      var j :| 0 <= j < |extent| && !extent[j].inUse && extent[j].address == chain[i].address;
      FreeAddressKnown(geom, image, chain, extent, i, j);
    }
    forall j | 0 <= j < |extent| && !extent[j].inUse ensures ChainTwin(chain, extent[j]) {
      assert extent[j].address in FreeOnly(extent);
      var i :| 0 <= i < |chain| && chain[i].address == extent[j].address;
      FreeAddressKnown(geom, image, chain, extent, i, j);
    }
  }

  /** Soundness: "ok" is only ever said of a consistent heap, with the
      allocation bit or without it. */
  lemma OkMeansConsistent(geom: Geometry, image: Image, counter: Option<int>)
    requires geom.kind in {2, 4, 5} && Judge(geom, image, counter) == Verdict.Ok
    ensures Consistent(geom, image, counter)
  {
    hide FreeWalk, LinearWalk, FreeChain, AddressSet, FreeOnly, SameFreeBlocks;
    OkMeansWalked(geom, image, counter);
    OkMeansSameAddresses(geom, image, counter);
    var chain := FreeWalk(geom, image);
    var extent := LinearWalk(geom, image, Some(chain));
    SameAddressesSameBlocks(geom, image, chain.blocks, extent.blocks);
    TiledSum(extent.blocks, geom.linearLow.value, ExtentEnd(geom).value);
  }
}
