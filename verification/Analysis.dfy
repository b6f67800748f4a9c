/** The static analysis of a program from its bytes to the dominance hierarchy of its blocks. */
module Analysis {
  import opened Arithmetic
  import opened Instructions
  import opened Verifier
  import opened Options
  import opened Graphs
  import opened Tarjan
  import opened Topology
  import opened ControlFlow
  import opened Gates
  import opened BasicBlocks

  lemma {:induction false} PlaceAtLeast(list: seq<Located>, i: nat)
    requires Listed(list) && i < |list|
    ensures list[i].ptr >= i
  {
    if i > 0 {
      PlaceAtLeast(list, i - 1);
      assert list[(i - 1) + 1].ptr == list[i - 1].ptr + PlacesOf(list[i - 1]);
    }
  }

  lemma {:induction false} FirstAtLeast(list: seq<Located>, blocks: seq<Block>, k: nat)
    requires Partition(list, blocks) && k < |blocks|
    ensures k <= blocks[k].first < |list|
  {
    if k > 0 {
      FirstAtLeast(list, blocks, k - 1);
      assert blocks[k - 1].end == blocks[(k - 1) + 1].first;
    }
  }

  /** There are no more blocks than instructions. */
  lemma BlocksFit(prog: seq<byte>, list: seq<Located>, blocks: seq<Block>)
    requires IsListing(prog, list) && Partition(list, blocks)
    ensures |blocks| <= Count(prog)
  {
    if |blocks| > 0 {
      FirstAtLeast(list, blocks, |blocks| - 1);
      PlaceAtLeast(list, blocks[|blocks| - 1].first);
      assert IsInsn(prog, list[blocks[|blocks| - 1].first]);
    }
  }

  /** What the analysis of a program consists of. */
  ghost predicate IsAnalysis(prog: seq<byte>, v: Version, registry: map<nat, nat>, list: seq<Located>,
                             blocks: seq<Block>, sources: seq<seq<nat>>, sccId: seq<nat>, discovery: seq<nat>,
                             order: seq<nat>, destinations: seq<nat>, parent: seq<nat>, children: seq<seq<nat>>) {
    && IsListing(prog, list) && IsSplit(v, registry, list, blocks)
    && (forall k, x :: 0 <= k < |blocks| && x in blocks[k].destinations ==> x in BlockStarts(blocks))
    && var g := GraphOf(blocks);
    && IsAnalyzed(g, sources, sccId, discovery, order, destinations) && HasHierarchy(g, order, destinations, parent)
    && |children| == |g| + 1 && forall p: nat :: p < |children| ==> children[p] == ChildrenOf(order, parent, p)
  }

  /** Disassembles, splits, links and analyzes a program. */
  method FromExecutable(prog: seq<byte>, v: Version, registry: map<nat, nat>)
    returns (list: seq<Located>, blocks: seq<Block>, sources: seq<seq<nat>>, sccId: seq<nat>, discovery: seq<nat>,
             order: seq<nat>, destinations: seq<nat>, parent: seq<nat>, children: seq<seq<nat>>)
    requires |prog| % INSN_SIZE == 0 && |prog| <= 0x7FFF_FFFF_FFFF_FFFF
    ensures IsAnalysis(prog, v, registry, list, blocks, sources, sccId, discovery, order, destinations, parent,
                       children)
  {
    hide Fetch, Listed, HasHierarchy, IsAnalyzed, Inverse, ExactStarts, TransfersEnd, Leads, BlockStarts, GraphOf,
         Partition;
    list := Disassemble(prog);
    blocks := SplitIntoBasicBlocks(v, registry, list);
    forall k, x | 0 <= k < |blocks| && x in blocks[k].destinations ensures x in BlockStarts(blocks) {
      DestinationsAreStarts(v, registry, list, blocks, k, x);
    }
    BlocksFit(prog, list, blocks);
    var g := GraphOf(blocks);
    sources := LinkEdges(g);
    sccId, discovery, order, destinations, parent, children := Analyze(g, sources);
  }

  // ---------------------------------------------------------------- a program with a wrong parent

  const NEXT: seq<byte> := [0x05, 0, 0, 0, 0, 0, 0, 0]
  const CHOOSE: seq<byte> := [0x15, 1, 0xFD, 0xFF, 0, 0, 0, 0]
  const BACKWARD: seq<byte> := [0x05, 0, 0xFD, 0xFF, 0, 0, 0, 0]

  /** `ja +0; ja +0; jeq r1, 0, -3; ja -3; ja -3` */
  const LOOP_PROGRAM: seq<byte> := NEXT + NEXT + CHOOSE + BACKWARD + BACKWARD

  const LOOP_LIST: seq<Located> :=
    [Located(0, Insn(0x05, 0, 0, 0, 0)), Located(1, Insn(0x05, 0, 0, 0, 0)), Located(2, Insn(0x15, 1, 0, -3, 0)),
     Located(3, Insn(0x05, 0, 0, -3, 0)), Located(4, Insn(0x05, 0, 0, -3, 0))]

  lemma LoopBytes()
    ensures |LOOP_PROGRAM| == 40 && LOOP_PROGRAM[0..8] == LOOP_PROGRAM[8..16] == NEXT && LOOP_PROGRAM[16..24] == CHOOSE
    ensures LOOP_PROGRAM[24..32] == LOOP_PROGRAM[32..40] == BACKWARD
  {
  }

  lemma LoopParses()
    ensures Parse(NEXT) == Insn(0x05, 0, 0, 0, 0) && Parse(BACKWARD) == Insn(0x05, 0, 0, -3, 0)
    ensures Parse(CHOOSE) == Insn(0x15, 1, 0, -3, 0)
  {
  }

  lemma LoopFetch(k: nat)
    requires k < 5
    ensures InProgram(LOOP_PROGRAM, k) && Fetch(LOOP_PROGRAM, k) == LOOP_LIST[k].insn
  {
    hide Parse;
    LoopBytes();
    LoopParses();
    var bytes := LOOP_PROGRAM[k * INSN_SIZE..k * INSN_SIZE + INSN_SIZE];
    if k < 2 {
      assert bytes == NEXT;
    } else if k == 2 {
      assert bytes == CHOOSE;
    } else {
      assert bytes == BACKWARD;
    }
  }

  lemma LoopDecodes(v: Version)
    ensures Decode(v, 0x05) == Jump(Always, W64, Imm) && Decode(v, 0x15) == Jump(Eq, W64, Imm)
  {
  }

  /** The static check accepts the program. */
  lemma LoopIsAccepted(v: Version)
    ensures Accepted(LOOP_PROGRAM, v)
  {
    hide Fetch, Decode;
    LoopDecodes(v);
    LoopFetch(0);
    LoopFetch(1);
    LoopFetch(2);
    LoopFetch(3);
    LoopFetch(4);
    assert |LOOP_PROGRAM| == 40;
    forall k: nat | k < 5 ensures Passes(LOOP_PROGRAM, v, k) {
      assert CheckJump(LOOP_PROGRAM, LOOP_LIST[k].insn, k).Ok?;
    }
  }

  lemma LoopListing(list: seq<Located>)
    requires IsListing(LOOP_PROGRAM, list)
    ensures list == LOOP_LIST
  {
    hide Fetch;
    forall k | 0 <= k < 5 ensures IsInsn(LOOP_PROGRAM, LOOP_LIST[k]) {
      LoopFetch(k);
    }
    assert |LOOP_PROGRAM| == 40;
    ListingIsUnique(LOOP_PROGRAM, list, LOOP_LIST);
  }

  /** Every instruction transfers control, in every version. */
  lemma LoopTransfers(v: Version, registry: map<nat, nat>, k: nat)
    requires k < 5
    ensures Transfer(v, registry, LOOP_LIST, k) == Some(LOOP[k])
  {
    hide Decode;
    LoopDecodes(v);
  }

  /** So every instruction is a block. */
  lemma {:induction false} LoopBlock(v: Version, registry: map<nat, nat>, blocks: seq<Block>, k: nat)
    requires IsSplit(v, registry, LOOP_LIST, blocks) && k < |blocks|
    ensures k < 5 && blocks[k].first == k && blocks[k].end == k + 1 && blocks[k].start == k
  {
    hide ExactStarts, Leads, Transfer;
    if k > 0 {
      LoopBlock(v, registry, blocks, k - 1);
      assert blocks[k - 1].end == blocks[(k - 1) + 1].first;
    }
    LoopTransfers(v, registry, k);
  }

  lemma LoopBlocks(v: Version, registry: map<nat, nat>, blocks: seq<Block>)
    requires IsSplit(v, registry, LOOP_LIST, blocks)
    ensures |blocks| == 5 && BlockStarts(blocks) == {0, 1, 2, 3, 4}
    ensures forall k :: 0 <= k < 5 ==> blocks[k].start == k && blocks[k].destinations == LOOP[k]
  {
    hide ExactStarts, TransfersEnd, Transfer;
    forall k | 0 <= k < |blocks| ensures k < 5 && blocks[k].end == k + 1 && blocks[k].start == k {
      LoopBlock(v, registry, blocks, k);
    }
    assert |blocks| == 5;
    assert blocks[0].start in BlockStarts(blocks) && blocks[1].start in BlockStarts(blocks)
           && blocks[2].start in BlockStarts(blocks) && blocks[3].start in BlockStarts(blocks)
           && blocks[4].start in BlockStarts(blocks);
    forall k | 0 <= k < 5 ensures blocks[k].destinations == LOOP[k] {
      assert Leads(v, registry, LOOP_LIST, blocks, k);
      LoopTransfers(v, registry, k);
      RetainsAll(LOOP[k], BlockStarts(blocks));
    }
  }

  lemma {:induction false} RetainsAll(targets: seq<nat>, starts: set<nat>)
    requires forall x :: x in targets ==> x in starts
    ensures Retain(targets, starts) == targets
  {
    if targets != [] {
      RetainsAll(targets[..|targets| - 1], starts);
    }
  }

  lemma LoopGraphOf(v: Version, registry: map<nat, nat>, blocks: seq<Block>)
    requires IsSplit(v, registry, LOOP_LIST, blocks)
    requires forall k, x :: 0 <= k < |blocks| && x in blocks[k].destinations ==> x in BlockStarts(blocks)
    ensures GraphOf(blocks) == LOOP
  {
    hide IsSplit, BlockNumber;
    LoopBlocks(v, registry, blocks);
    var g := GraphOf(blocks);
    forall k | 0 <= k < 5 ensures g[k] == LOOP[k] {
      assert |g[k]| == |LOOP[k]|;
      forall j | 0 <= j < |LOOP[k]| ensures g[k][j] == LOOP[k][j] {
        assert g[k][j] == BlockNumber(blocks, blocks[k].destinations[j]);
      }
    }
  }

  /**
   Whatever the analysis answers for this program, in every version and with every registry: block 2 is the immediate
   dominator of block 1, and is not its parent.
   */
  lemma LoopProgramIsWrong(v: Version, registry: map<nat, nat>, list: seq<Located>, blocks: seq<Block>,
                           sources: seq<seq<nat>>, sccId: seq<nat>, discovery: seq<nat>, order: seq<nat>,
                           destinations: seq<nat>, parent: seq<nat>, children: seq<seq<nat>>)
    requires IsAnalysis(LOOP_PROGRAM, v, registry, list, blocks, sources, sccId, discovery, order, destinations, parent,
                        children)
    ensures Accepted(LOOP_PROGRAM, v)
    ensures |parent| == 6 && parent[1] != 2 && forall u :: u in destinations ==> u < |GraphOf(blocks)|
    ensures ImmediatelyDominates(WithSuperRoot(GraphOf(blocks), destinations), 5, 2, 1)
  {
    hide IsListing, IsSplit, IsAnalyzed, HasHierarchy, GraphOf, ImmediatelyDominates, WithSuperRoot, Accepted;
    LoopIsAccepted(v);
    LoopListing(list);
    LoopGraphOf(v, registry, blocks);
    HypothesisIsNeeded(sources, sccId, discovery, order, destinations, parent);
    assert forall u :: u in destinations ==> u < |GraphOf(blocks)| by {
      HierarchyDestinations(GraphOf(blocks), order, destinations, parent);
    }
  }

  lemma HierarchyDestinations(g: Graph, order: seq<nat>, destinations: seq<nat>, parent: seq<nat>)
    requires HasHierarchy(g, order, destinations, parent)
    ensures forall u :: u in destinations ==> u < |g|
  {
  }
}
