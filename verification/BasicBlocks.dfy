/** Splitting a program into basic blocks, and linking the blocks into a control-flow graph. */
module BasicBlocks {
  import opened Options
  import opened Words
  import opened Arithmetic
  import opened Instructions
  import opened Laws
  import opened Opcodes
  import opened Graphs
  import opened Topology

  const LD_DW_IMM: byte := 0x18

  /** An instruction and its place in the program. */
  datatype Located = Located(ptr: nat, insn: Insn)

  function PlacesOf(l: Located): nat {
    if l.insn.opc == LD_DW_IMM then 2 else 1
  }

  /** Instructions follow one another without holes from the start of the program. */
  ghost predicate Listed(list: seq<Located>) {
    && (|list| > 0 ==> list[0].ptr == 0)
    && forall i :: 0 <= i && i + 1 < |list| ==> list[i + 1].ptr == list[i].ptr + PlacesOf(list[i])
  }

  /** The place behind the last instruction. */
  function EndOf(list: seq<Located>): nat {
    if list == [] then 0 else list[|list| - 1].ptr + PlacesOf(list[|list| - 1])
  }

  /** The instruction at a place; a wide one carries the immediate of both of its halves. */
  function InsnAt(prog: seq<byte>, at: nat): Insn
    requires InProgram(prog, at) && (Fetch(prog, at).opc == LD_DW_IMM ==> InProgram(prog, at + 1))
  {
    var insn := Fetch(prog, at);
    if insn.opc == LD_DW_IMM then insn.(imm := Signed(W64, WideImmediate(prog, at))) else insn
  }

  ghost predicate IsInsn(prog: seq<byte>, l: Located) {
    && InProgram(prog, l.ptr) && (Fetch(prog, l.ptr).opc == LD_DW_IMM ==> InProgram(prog, l.ptr + 1))
    && l.insn == InsnAt(prog, l.ptr)
  }

  /** Only the first half of a wide instruction at the very end of the program is left out. */
  ghost predicate LoneHalf(prog: seq<byte>, at: nat) {
    at + 1 == Count(prog) && InProgram(prog, at) && Fetch(prog, at).opc == LD_DW_IMM
  }

  /** All instructions of the program, one after the other. */
  ghost predicate IsListing(prog: seq<byte>, list: seq<Located>) {
    && Listed(list) && (forall i :: 0 <= i < |list| ==> IsInsn(prog, list[i]))
    && (EndOf(list) == Count(prog) || LoneHalf(prog, EndOf(list)))
  }

  /** The instructions of a program; a wide one is merged with its second half. */
  method Disassemble(prog: seq<byte>) returns (list: seq<Located>)
    requires |prog| % INSN_SIZE == 0
    ensures IsListing(prog, list)
  {
    hide Fetch;
    list := [];
    var ptr: nat := 0;
    while ptr * INSN_SIZE < |prog|
      invariant Listed(list) && ptr == EndOf(list) <= Count(prog)
      invariant forall i :: 0 <= i < |list| ==> IsInsn(prog, list[i])
    {
      var at := ptr;
      var insn := Fetch(prog, ptr);
      if insn.opc == LD_DW_IMM {
        ptr := ptr + 1;
        if ptr * INSN_SIZE >= |prog| {
          break;
        }
        insn := insn.(imm := Signed(W64, WideImmediate(prog, at)));
      }
      list := list + [Located(at, insn)];
      ptr := ptr + 1;
    }
  }

  /** A program has only one listing. */
  lemma ListingIsUnique(prog: seq<byte>, list: seq<Located>, other: seq<Located>)
    requires IsListing(prog, list) && IsListing(prog, other)
    ensures list == other
  {
    hide Fetch;
    if |list| <= |other| {
      ListingsAgree(prog, list, other, |list|);
      ListingEnds(prog, list, other);
    } else {
      ListingsAgree(prog, other, list, |other|);
      ListingEnds(prog, other, list);
    }
  }

  lemma {:induction false} ListingsAgree(prog: seq<byte>, list: seq<Located>, other: seq<Located>, n: nat)
    requires IsListing(prog, list) && IsListing(prog, other) && n <= |list| && n <= |other|
    ensures list[..n] == other[..n]
  {
    hide Fetch, InsnAt;
    if n > 0 {
      ListingsAgree(prog, list, other, n - 1);
      NextPlace(list, n - 1);
      NextPlace(other, n - 1);
      assert IsInsn(prog, list[n - 1]) && IsInsn(prog, other[n - 1]);
      assert list[..n] == list[..n - 1] + [list[n - 1]] && other[..n] == other[..n - 1] + [other[n - 1]];
    }
  }

  lemma ListingEnds(prog: seq<byte>, list: seq<Located>, other: seq<Located>)
    requires IsListing(prog, list) && IsListing(prog, other) && |list| <= |other| && list == other[..|list|]
    ensures list == other
  {
    hide Fetch, InsnAt;
    if |list| < |other| {
      NextPlace(other, |list|);
    }
  }

  lemma NextPlace(list: seq<Located>, n: nat)
    requires Listed(list) && n < |list|
    ensures list[n].ptr == EndOf(list[..n])
  {
    if n > 0 {
      assert list[(n - 1) + 1].ptr == list[n - 1].ptr + PlacesOf(list[n - 1]);
    }
  }

  // ---------------------------------------------------------------- control transfers

  /** The registry key of a call. */
  function CallKey(v: Version, index: nat, imm: int): nat {
    Trunc(W32, if StaticSyscalls(v) then index + imm + 1 else imm)
  }

  function JumpTarget(l: Located): nat {
    Trunc(W64, l.ptr + l.insn.off + 1)
  }

  /** Where control may go from the instruction with this index, if it ends a block. */
  function Transfer(v: Version, registry: map<nat, nat>, list: seq<Located>, index: nat): Option<seq<nat>>
    requires index < |list|
  {
    var l := list[index];
    match Decode(v, l.insn.opc)
    case CallImm => if CallKey(v, index, l.insn.imm) in registry then Some([l.ptr + 1]) else None
    case CallReg => Some([l.ptr + 1])
    case Exit => Some([])
    case Jump(condition, _, _) => Some(if condition == Always then [JumpTarget(l)] else [l.ptr + 1, JumpTarget(l)])
    case _ => None
  }

  /** The places at which blocks have to start because of an instruction. */
  function NewStarts(v: Version, registry: map<nat, nat>, list: seq<Located>, index: nat): set<nat>
    requires index < |list|
  {
    var l := list[index];
    match Decode(v, l.insn.opc)
    case CallImm =>
      var key := CallKey(v, index, l.insn.imm);
      if key in registry then {l.ptr + 1, registry[key]} else {}
    case CallReg => {l.ptr + 1}
    case Exit => {l.ptr + 1}
    case Jump(_, _, _) => {l.ptr + 1, JumpTarget(l)}
    case _ => {}
  }

  lemma TransferFacts(v: Version, registry: map<nat, nat>, list: seq<Located>, index: nat)
    requires index < |list| && Transfer(v, registry, list, index).Some?
    ensures list[index].ptr + 1 in NewStarts(v, registry, list, index) && PlacesOf(list[index]) == 1
  {
  }

  /** One of the first n instructions makes a block start at x. */
  ghost predicate Demanded(v: Version, registry: map<nat, nat>, list: seq<Located>, n: nat, x: nat)
    requires n <= |list|
  {
    exists i: nat :: i < n && x in NewStarts(v, registry, list, i)
  }

  /** A place of an instruction at which a block starts. */
  ghost predicate IsStart(v: Version, registry: map<nat, nat>, list: seq<Located>, x: nat) {
    && (exists i :: 0 <= i < |list| && list[i].ptr == x)
    && (x == 0 || x in registry.Values || Demanded(v, registry, list, |list|, x))
  }

  /** The starts that the first n instructions contribute. */
  ghost predicate StartsOf(v: Version, registry: map<nat, nat>, list: seq<Located>, n: nat, starts: set<nat>)
    requires n <= |list|
  {
    forall x: nat :: x in starts <==> x == 0 || x in registry.Values || Demanded(v, registry, list, n, x)
  }

  /** The transfers among the first n instructions. */
  ghost predicate EdgesOf(v: Version, registry: map<nat, nat>, list: seq<Located>, n: nat, edges: map<nat, seq<nat>>)
    requires n <= |list|
  {
    forall i: nat {:trigger list[i]} :: i < |list| ==>
      (if i < n && Transfer(v, registry, list, i).Some?
       then list[i].ptr in edges && edges[list[i].ptr] == Transfer(v, registry, list, i).value
       else list[i].ptr !in edges)
  }

  // ---------------------------------------------------------------- what instructions ask for

  /** The destinations that are starts of blocks. */
  function Retain(destinations: seq<nat>, starts: set<nat>): (r: seq<nat>)
    ensures forall x :: x in r <==> x in destinations && x in starts
  {
    if |destinations| == 0 then []
    else
      var rest := Retain(destinations[..|destinations| - 1], starts);
      if destinations[|destinations| - 1] in starts then rest + [destinations[|destinations| - 1]] else rest
  }

  /** What a list of instructions holds in memory: places are machine words, offsets half words. */
  ghost predicate Addressable(list: seq<Located>) {
    forall i :: 0 <= i < |list| ==>
      list[i].ptr <= 0x7FFF_FFFF_FFFF_0000 && -0x8000 <= list[i].insn.off < 0x8000
  }

  lemma ListingIsAddressable(prog: seq<byte>, list: seq<Located>)
    requires IsListing(prog, list) && |prog| <= 0x7FFF_FFFF_FFFF_FFFF
    ensures Addressable(list)
  {
    forall i | 0 <= i < |list|
      ensures list[i].ptr <= 0x7FFF_FFFF_FFFF_0000 && -0x8000 <= list[i].insn.off < 0x8000
    {
      hide Fetch;
      assert IsInsn(prog, list[i]);
      OffsetIsHalf(prog, list[i].ptr);
    }
  }

  lemma OffsetIsHalf(prog: seq<byte>, at: nat)
    requires InProgram(prog, at)
    ensures -0x8000 <= Fetch(prog, at).off < 0x8000
  {
    hide Parse;
    EncodeParse(prog[at * INSN_SIZE..at * INSN_SIZE + INSN_SIZE]);
  }

  /** An instruction is listed at the place. */
  ghost predicate IsPlace(list: seq<Located>, x: int) {
    exists i :: 0 <= i < |list| && list[i].ptr == x
  }

  /** The key of a call: its immediate, since the third version counted from the instruction behind it. */
  ghost predicate IsKey(v: Version, index: nat, imm: int, key: nat) {
    Fits(W32, key) && Agree(W32, key, if SinceV3(v) then index + 1 + imm else imm)
  }

  /** The instruction calls this registered function. */
  ghost predicate CallsTo(v: Version, registry: map<nat, nat>, list: seq<Located>, i: nat, callee: nat)
    requires i < |list|
  {
    && Decode(v, list[i].insn.opc) == CallImm
    && exists key: nat :: key in registry && IsKey(v, i, list[i].insn.imm, key) && registry[key] == callee
  }

  ghost predicate Resolves(v: Version, registry: map<nat, nat>, list: seq<Located>, i: nat)
    requires i < |list|
  {
    exists callee :: CallsTo(v, registry, list, i, callee)
  }

  /** The instruction may move control: a jump, an exit, a call through a register or of a registered function. */
  ghost predicate Moves(v: Version, registry: map<nat, nat>, list: seq<Located>, i: nat)
    requires i < |list|
  {
    var op := Decode(v, list[i].insn.opc);
    op.Jump? || op.Exit? || op.CallReg? || Resolves(v, registry, list, i)
  }

  /** A block starts at a place behind a move, at the target of a jump, and at a called function. */
  ghost predicate AsksFor(v: Version, registry: map<nat, nat>, list: seq<Located>, i: nat, x: int)
    requires i < |list|
  {
    var l := list[i];
    || (Moves(v, registry, list, i) && x == l.ptr + 1)
    || (Decode(v, l.insn.opc).Jump? && x == l.ptr + 1 + l.insn.off)
    || (x >= 0 && CallsTo(v, registry, list, i, x))
  }

  ghost predicate StartsAt(v: Version, registry: map<nat, nat>, list: seq<Located>, x: nat) {
    x == 0 || x in registry.Values || exists i: nat :: i < |list| && AsksFor(v, registry, list, i, x)
  }

  /** The place, if an instruction is listed there. */
  ghost function Kept(list: seq<Located>, x: int): seq<nat> {
    if IsPlace(list, x) then [x] else []
  }

  /** Where control goes behind an instruction that moves it. */
  ghost function Goals(v: Version, registry: map<nat, nat>, list: seq<Located>, i: nat): seq<nat>
    requires i < |list|
  {
    var l := list[i];
    match Decode(v, l.insn.opc)
    case Jump(condition, _, _) =>
      (if condition == Always then [] else Kept(list, l.ptr + 1)) + Kept(list, l.ptr + 1 + l.insn.off)
    case Exit => []
    case _ => Kept(list, l.ptr + 1)
  }

  lemma KeyLaw(v: Version, index: nat, imm: int, key: nat)
    ensures IsKey(v, index, imm, key) <==> key == CallKey(v, index, imm)
  {
    hide Pow2, Trunc;
    var x := if SinceV3(v) then index + 1 + imm else imm;
    TruncLaw(W32, x);
    LowIsTrunc(W32, x);
    LowIsTrunc(W32, key);
    AgreeIsEqual(W32, key, x);
    if IsKey(v, index, imm, key) {
      ModSmall(key, Pow2(32));
    }
  }

  lemma CallLaw(v: Version, registry: map<nat, nat>, list: seq<Located>, i: nat, x: nat)
    requires i < |list|
    ensures var key := CallKey(v, i, list[i].insn.imm);
      CallsTo(v, registry, list, i, x)
      <==> Decode(v, list[i].insn.opc) == CallImm && key in registry && registry[key] == x
  {
    hide Decode, IsKey, CallKey;
    var imm := list[i].insn.imm;
    KeyLaw(v, i, imm, CallKey(v, i, imm));
    if CallsTo(v, registry, list, i, x) {
      var key: nat :| key in registry && IsKey(v, i, imm, key) && registry[key] == x;
      KeyLaw(v, i, imm, key);
    }
  }

  lemma ResolvesLaw(v: Version, registry: map<nat, nat>, list: seq<Located>, i: nat)
    requires i < |list|
    ensures Resolves(v, registry, list, i)
      <==> Decode(v, list[i].insn.opc) == CallImm && CallKey(v, i, list[i].insn.imm) in registry
  {
    hide Decode, CallKey, CallsTo;
    var key := CallKey(v, i, list[i].insn.imm);
    if Resolves(v, registry, list, i) {
      var callee :| CallsTo(v, registry, list, i, callee);
      CallLaw(v, registry, list, i, callee);
    } else if key in registry {
      CallLaw(v, registry, list, i, registry[key]);
    }
  }

  /** A target is listed only where it did not leave the range of places. */
  lemma TargetLaw(list: seq<Located>, i: nat, x: int)
    requires Addressable(list) && i < |list| && IsPlace(list, x)
    ensures x == JumpTarget(list[i]) <==> x == list[i].ptr + 1 + list[i].insn.off
  {
    hide Trunc;
    WordOf(list[i].ptr + list[i].insn.off + 1);
  }

  lemma WordOf(t: int)
    requires -0x8000 <= t < WORD
    ensures Trunc(W64, t) == if t >= 0 then t else t + WORD
  {
  }

  lemma AskLaw(v: Version, registry: map<nat, nat>, list: seq<Located>, i: nat, x: nat)
    requires Addressable(list) && i < |list| && IsPlace(list, x)
    ensures x in NewStarts(v, registry, list, i) <==> AsksFor(v, registry, list, i, x)
  {
    hide Decode, CallKey, JumpTarget, CallsTo, Resolves, IsPlace;
    TargetLaw(list, i, x);
    CallLaw(v, registry, list, i, x);
    ResolvesLaw(v, registry, list, i);
  }

  /** Blocks start where the instructions ask for it. */
  lemma StartLaw(v: Version, registry: map<nat, nat>, list: seq<Located>, x: nat)
    requires Addressable(list) && IsPlace(list, x)
    ensures x in registry.Values || x == 0 || Demanded(v, registry, list, |list|, x)
      <==> StartsAt(v, registry, list, x)
  {
    hide NewStarts, AsksFor, IsPlace;
    forall i: nat | i < |list|
      ensures x in NewStarts(v, registry, list, i) <==> AsksFor(v, registry, list, i, x)
    {
      AskLaw(v, registry, list, i, x);
    }
  }

  lemma MoveLaw(v: Version, registry: map<nat, nat>, list: seq<Located>, i: nat)
    requires i < |list|
    ensures Transfer(v, registry, list, i).Some? <==> Moves(v, registry, list, i)
  {
    hide Decode, CallKey, JumpTarget, Resolves;
    ResolvesLaw(v, registry, list, i);
  }

  /** Of the targets of a transfer those are kept that are listed. */
  lemma GoalLaw(v: Version, registry: map<nat, nat>, list: seq<Located>, i: nat, starts: set<nat>)
    requires Addressable(list) && i < |list| && Moves(v, registry, list, i)
    requires forall x: nat :: x in starts <==> IsPlace(list, x) && StartsAt(v, registry, list, x)
    ensures Transfer(v, registry, list, i).Some?
    ensures Retain(Transfer(v, registry, list, i).value, starts) == Goals(v, registry, list, i)
  {
    hide Decode, CallKey, JumpTarget, Resolves, IsPlace, StartsAt, Retain, AsksFor;
    MoveLaw(v, registry, list, i);
    var l := list[i];
    KeptIfStart(v, registry, list, i, l.ptr + 1, starts);
    RetainOne(l.ptr + 1, starts);
    RetainNone(starts);
    if Decode(v, l.insn.opc).Jump? {
      var t := JumpTarget(l);
      KeptTarget(v, registry, list, i, starts);
      RetainOne(t, starts);
      RetainTwo(l.ptr + 1, t, starts);
    }
  }

  lemma RetainNone(starts: set<nat>)
    ensures Retain([], starts) == []
  {
  }

  lemma RetainOne(x: nat, starts: set<nat>)
    ensures Retain([x], starts) == if x in starts then [x] else []
  {
    assert [x][..0] == [];
  }

  lemma RetainTwo(x: nat, y: nat, starts: set<nat>)
    ensures Retain([x, y], starts) == Retain([x], starts) + Retain([y], starts)
  {
    assert [x, y][..1] == [x] && [y][..0] == [];
  }

  lemma KeptIfStart(v: Version, registry: map<nat, nat>, list: seq<Located>, i: nat, x: nat, starts: set<nat>)
    requires i < |list| && (Moves(v, registry, list, i) && x == list[i].ptr + 1)
    requires forall y: nat :: y in starts <==> IsPlace(list, y) && StartsAt(v, registry, list, y)
    ensures Kept(list, x) == if x in starts then [x] else []
  {
    hide Decode, IsPlace, Resolves, CallsTo;
    assert AsksFor(v, registry, list, i, x);
  }

  lemma KeptTarget(v: Version, registry: map<nat, nat>, list: seq<Located>, i: nat, starts: set<nat>)
    requires Addressable(list) && i < |list| && Decode(v, list[i].insn.opc).Jump?
    requires forall y: nat :: y in starts <==> IsPlace(list, y) && StartsAt(v, registry, list, y)
    ensures var t := JumpTarget(list[i]);
      Kept(list, list[i].ptr + 1 + list[i].insn.off) == if t in starts then [t] else []
  {
    hide Decode, IsPlace, Moves, CallsTo, JumpTarget;
    var t, x := JumpTarget(list[i]), list[i].ptr + 1 + list[i].insn.off;
    if IsPlace(list, x) {
      TargetLaw(list, i, x);
      assert AsksFor(v, registry, list, i, t);
    }
    if IsPlace(list, t) {
      TargetLaw(list, i, t);
    }
  }

  // ---------------------------------------------------------------- collecting

  /** The noted starts and edges are those that the instructions ask for, as far as instructions are listed there. */
  ghost predicate CollectsRight(v: Version, registry: map<nat, nat>, list: seq<Located>, starts: set<nat>,
                                edges: map<nat, seq<nat>>) {
    && (forall x: nat :: IsPlace(list, x) ==> (x in starts <==> StartsAt(v, registry, list, x)))
    && (forall i: nat {:trigger list[i]} :: i < |list| ==> (list[i].ptr in edges <==> Moves(v, registry, list, i)))
    && (forall i: nat, x: nat :: i < |list| && list[i].ptr in edges && IsPlace(list, x) ==>
          (x in edges[list[i].ptr] <==> x in Goals(v, registry, list, i)))
  }

  lemma GoalMember(v: Version, registry: map<nat, nat>, list: seq<Located>, i: nat, x: nat)
    requires Addressable(list) && i < |list| && IsPlace(list, x) && Transfer(v, registry, list, i).Some?
    ensures x in Transfer(v, registry, list, i).value <==> x in Goals(v, registry, list, i)
  {
    hide Decode, CallKey, JumpTarget, IsPlace, Addressable;
    TargetLaw(list, i, x);
  }

  lemma CollectedRight(v: Version, registry: map<nat, nat>, list: seq<Located>, starts: set<nat>,
                       edges: map<nat, seq<nat>>)
    requires Addressable(list)
    requires StartsOf(v, registry, list, |list|, starts) && EdgesOf(v, registry, list, |list|, edges)
    ensures CollectsRight(v, registry, list, starts, edges)
  {
    hide Transfer, Moves, Goals, StartsAt, Demanded, Addressable, IsPlace;
    forall x: nat | IsPlace(list, x) ensures x in starts <==> StartsAt(v, registry, list, x) {
      StartLaw(v, registry, list, x);
    }
    forall i: nat | i < |list| ensures list[i].ptr in edges <==> Moves(v, registry, list, i) {
      MoveLaw(v, registry, list, i);
    }
    forall i: nat, x: nat | i < |list| && list[i].ptr in edges && IsPlace(list, x)
      ensures x in edges[list[i].ptr] <==> x in Goals(v, registry, list, i)
    {
      GoalMember(v, registry, list, i, x);
    }
  }

  /** Goes through the instructions once, and notes block starts and control transfers. */
  method Collect(v: Version, registry: map<nat, nat>, list: seq<Located>)
    returns (starts: set<nat>, edges: map<nat, seq<nat>>)
    requires Listed(list)
    ensures StartsOf(v, registry, list, |list|, starts) && EdgesOf(v, registry, list, |list|, edges)
    ensures Addressable(list) ==> CollectsRight(v, registry, list, starts, edges)
  {
    hide Transfer, NewStarts, StartsOf, EdgesOf, CollectsRight, Addressable;
    starts := {0} + registry.Values;
    edges := map[];
    NothingYet(v, registry, list);
    for n := 0 to |list|
      invariant StartsOf(v, registry, list, n, starts) && EdgesOf(v, registry, list, n, edges)
    {
      StartsGrow(v, registry, list, n, starts);
      EdgesGrow(v, registry, list, n, edges);
      starts := starts + NewStarts(v, registry, list, n);
      var transfer := Transfer(v, registry, list, n);
      if transfer.Some? {
        edges := edges[list[n].ptr := transfer.value];
      }
    }
    if Addressable(list) {
      CollectedRight(v, registry, list, starts, edges);
    }
  }

  lemma NothingYet(v: Version, registry: map<nat, nat>, list: seq<Located>)
    ensures StartsOf(v, registry, list, 0, {0} + registry.Values) && EdgesOf(v, registry, list, 0, map[])
  {
    hide Transfer, NewStarts;
  }

  lemma StartsGrow(v: Version, registry: map<nat, nat>, list: seq<Located>, n: nat, starts: set<nat>)
    requires n < |list| && StartsOf(v, registry, list, n, starts)
    ensures StartsOf(v, registry, list, n + 1, starts + NewStarts(v, registry, list, n))
  {
    hide NewStarts;
    forall x: nat
      ensures Demanded(v, registry, list, n + 1, x) <==>
        Demanded(v, registry, list, n, x) || x in NewStarts(v, registry, list, n)
    {
      if Demanded(v, registry, list, n + 1, x) {
        var i: nat :| i < n + 1 && x in NewStarts(v, registry, list, i);
      }
    }
  }

  lemma EdgesGrow(v: Version, registry: map<nat, nat>, list: seq<Located>, n: nat, edges: map<nat, seq<nat>>)
    requires Listed(list) && n < |list| && EdgesOf(v, registry, list, n, edges)
    ensures var t := Transfer(v, registry, list, n);
      EdgesOf(v, registry, list, n + 1, if t.Some? then edges[list[n].ptr := t.value] else edges)
  {
    hide Transfer;
    PlacesAreDistinct(list);
  }

  lemma PlacesAreDistinct(list: seq<Located>)
    requires Listed(list)
    ensures forall i, j :: 0 <= i < j < |list| ==> list[i].ptr < list[j].ptr
  {
    forall i: nat, j: nat | i < j < |list| ensures list[i].ptr < list[j].ptr {
      PlacesAscend(list, i, j);
    }
  }

  lemma {:induction false} PlacesAscend(list: seq<Located>, i: nat, j: nat)
    requires Listed(list) && i < j < |list|
    ensures list[i].ptr < list[j].ptr
    decreases j
  {
    assert list[(j - 1) + 1].ptr == list[j - 1].ptr + PlacesOf(list[j - 1]);
    if i < j - 1 {
      PlacesAscend(list, i, j - 1);
    }
  }

  // ---------------------------------------------------------------- ordered keys

  /** The indices, in order, of those of the first n instructions whose places are in the set. */
  function Positions(list: seq<Located>, places: set<nat>, n: nat): seq<nat>
    requires n <= |list|
  {
    if n == 0 then [] else Positions(list, places, n - 1) + (if list[n - 1].ptr in places then [n - 1] else [])
  }

  ghost predicate Ascending(p: seq<nat>) {
    forall i, j :: 0 <= i < j < |p| ==> p[i] < p[j]
  }

  lemma {:induction false} PositionsAreExact(list: seq<Located>, places: set<nat>, n: nat)
    requires n <= |list|
    ensures var p := Positions(list, places, n);
      Ascending(p) && forall i: nat :: i in p <==> i < n && list[i].ptr in places
  {
    if n > 0 {
      PositionsAreExact(list, places, n - 1);
      var front := Positions(list, places, n - 1);
      forall i | 0 <= i < |front| ensures front[i] < n - 1 {
        assert front[i] in front;
      }
    }
  }

  // ---------------------------------------------------------------- blocks

  /** A block: the place where it starts, the range of its instructions, and where control goes from it. */
  datatype Block = Block(start: nat, first: nat, end: nat, destinations: seq<nat>)

  /** Where block number k ends: at the next start, or at the end of the program. */
  function NextKey(keys: seq<nat>, k: nat, n: nat): nat {
    if k + 1 < |keys| then keys[k + 1] else n
  }

  /** A transfer decides the destinations; otherwise control falls through, except from the start of a function. */
  function Successors(list: seq<Located>, keys: seq<nat>, edges: map<nat, seq<nat>>, functions: set<nat>,
                      k: nat): seq<nat>
    requires k < |keys| && 0 < NextKey(keys, k, |list|) <= |list| && keys[k] < |list|
  {
    var next := NextKey(keys, k, |list|);
    if list[next - 1].ptr in edges then edges[list[next - 1].ptr]
    else if k + 1 < |keys| && next < |list| && list[keys[k]].ptr !in functions then [list[next].ptr]
    else []
  }

  /** The keys of a walk are the starts of the blocks. */
  ghost predicate GoodKeys(list: seq<Located>, keys: seq<nat>) {
    && Listed(list) && Ascending(keys) && (forall k :: 0 <= k < |keys| ==> keys[k] < |list|)
    && (|list| > 0 ==> |keys| > 0 && keys[0] == 0)
  }

  /** A transfer is followed by a start. */
  ghost predicate EndsBlock(list: seq<Located>, keys: seq<nat>, transfers: seq<nat>) {
    Ascending(transfers) && forall t: nat :: t in transfers ==> t < |list| && (t + 1 == |list| || t + 1 in keys)
  }

  lemma KeysBound(list: seq<Located>, keys: seq<nat>, k: nat)
    requires GoodKeys(list, keys) && k < |keys|
    ensures keys[k] < NextKey(keys, k, |list|) <= |list| && (k + 1 < |keys| ==> keys[k + 1] < |list|)
  {
  }

  lemma KeysStart(list: seq<Located>, keys: seq<nat>)
    requires GoodKeys(list, keys)
    ensures 0 == if 0 < |keys| then keys[0] else |list|
  {
  }

  /** The place of the last instruction of block `k`, as the walk computes it. */
  function LastPlace(list: seq<Located>, keys: seq<nat>, k: nat): int
    requires k < |keys| && |list| > 0 && (k + 1 < |keys| ==> keys[k + 1] < |list|)
  {
    if k + 1 < |keys| then list[keys[k + 1]].ptr - 1 else list[|list| - 1].ptr
  }

  /** It tells the instructions of the block and before from those behind. */
  lemma LastPlaceDivides(list: seq<Located>, keys: seq<nat>, k: nat, i: nat)
    requires GoodKeys(list, keys) && k < |keys| && i < |list| && (k + 1 < |keys| ==> keys[k + 1] < |list|)
    ensures list[i].ptr <= LastPlace(list, keys, k) <==> i < NextKey(keys, k, |list|)
  {
    hide Listed;
    PlacesAreDistinct(list);
  }

  /** Walks over keys and transfers together, both in order. */
  method Walk(list: seq<Located>, keys: seq<nat>, transfers: seq<nat>, edges: map<nat, seq<nat>>, functions: set<nat>)
    returns (blocks: seq<Block>)
    requires GoodKeys(list, keys) && EndsBlock(list, keys, transfers)
    requires forall i: nat :: i < |list| ==> (i in transfers <==> list[i].ptr in edges)
    ensures |blocks| == |keys|
    ensures forall k :: 0 <= k < |keys| ==> IsBlock(list, keys, edges, functions, k, blocks[k])
  {
    hide GoodKeys, IsBlock, EndsBlock, LastPlace;
    blocks := [];
    var index, e := 0, 0;
    KeysStart(list, keys);
    for k := 0 to |keys|
      invariant |blocks| == k && forall j :: 0 <= j < k ==> IsBlock(list, keys, edges, functions, j, blocks[j])
      invariant index == if k < |keys| then keys[k] else |list|
      invariant 0 <= e <= |transfers| && (e > 0 ==> transfers[e - 1] < index)
      invariant (e < |transfers| ==> transfers[e] >= index)
    {
      KeysBound(list, keys, k);
      ghost var next := NextKey(keys, k, |list|);
      var last := LastPlace(list, keys, k);
      var first := index;
      while index < |list| && list[index].ptr <= last
        invariant first <= index <= next
      {
        LastPlaceDivides(list, keys, k, index);
        index := index + 1;
      }
      if index < |list| {
        LastPlaceDivides(list, keys, k, index);
      }
      TransferIsLast(list, keys, transfers, k, e);
      var destinations: seq<nat> := [];
      if e < |transfers| {
        LastPlaceDivides(list, keys, k, transfers[e]);
      }
      if e < |transfers| && list[transfers[e]].ptr <= last {
        assert transfers[e] in transfers;
        destinations := edges[list[transfers[e]].ptr];
        e := e + 1;
      } else if k + 1 < |keys| && list[keys[k]].ptr !in functions {
        destinations := [list[keys[k + 1]].ptr];
      }
      IsNextBlock(list, keys, transfers, edges, functions, k, destinations);
      blocks := blocks + [Block(list[keys[k]].ptr, first, index, destinations)];
    }
  }

  lemma IsNextBlock(list: seq<Located>, keys: seq<nat>, transfers: seq<nat>, edges: map<nat, seq<nat>>,
                    functions: set<nat>, k: nat, destinations: seq<nat>)
    requires k < |keys| && keys[k] < NextKey(keys, k, |list|) <= |list| && (k + 1 < |keys| ==> keys[k + 1] < |list|)
    requires var at := NextKey(keys, k, |list|) - 1;
      && (at in transfers <==> list[at].ptr in edges)
      && destinations == if at in transfers then edges[list[at].ptr]
                         else if k + 1 < |keys| && list[keys[k]].ptr !in functions then [list[keys[k + 1]].ptr] else []
    ensures IsBlock(list, keys, edges, functions, k,
                    Block(list[keys[k]].ptr, keys[k], NextKey(keys, k, |list|), destinations))
  {
  }

  ghost predicate IsBlock(list: seq<Located>, keys: seq<nat>, edges: map<nat, seq<nat>>, functions: set<nat>, k: nat,
                          b: Block) {
    && k < |keys| && keys[k] < NextKey(keys, k, |list|) <= |list|
    && b == Block(list[keys[k]].ptr, keys[k], NextKey(keys, k, |list|), Successors(list, keys, edges, functions, k))
  }

  /** The next transfer in the block, if any, is its last instruction. */
  lemma TransferIsLast(list: seq<Located>, keys: seq<nat>, transfers: seq<nat>, k: nat, e: nat)
    requires GoodKeys(list, keys) && EndsBlock(list, keys, transfers) && k < |keys| && e <= |transfers|
    requires (e > 0 ==> transfers[e - 1] < keys[k]) && (e < |transfers| ==> transfers[e] >= keys[k])
    ensures var next := NextKey(keys, k, |list|);
      && (e < |transfers| ==> transfers[e] < |list|)
      && (e < |transfers| && transfers[e] < next ==> transfers[e] == next - 1)
      && ((next - 1) in transfers <==> e < |transfers| && transfers[e] < next)
      && (e + 1 < |transfers| && transfers[e] < next ==> transfers[e + 1] >= next)
  {
    var next: nat := NextKey(keys, k, |list|);
    assert e < |transfers| ==> transfers[e] in transfers;
    if e < |transfers| && transfers[e] < next {
      if transfers[e] + 1 in keys {
        var j :| 0 <= j < |keys| && keys[j] == transfers[e] + 1;
        assert j > k;
      }
    }
    KeysBound(list, keys, k);
    if (next - 1) in transfers {
      var x :| 0 <= x < |transfers| && transfers[x] == next - 1;
      assert x >= e;
    }
  }

  // ---------------------------------------------------------------- the whole split

  /** The blocks follow one another, are not empty, and cover the instructions. */
  ghost predicate Partition(list: seq<Located>, blocks: seq<Block>) {
    && (forall k :: 0 <= k < |blocks| ==>
      blocks[k].first < blocks[k].end <= |list| && blocks[k].start == list[blocks[k].first].ptr)
    && (forall k :: 0 <= k && k + 1 < |blocks| ==> blocks[k].end == blocks[k + 1].first)
    && (if |list| == 0 then |blocks| == 0
      else |blocks| > 0 && blocks[0].first == 0 && blocks[|blocks| - 1].end == |list|)
  }

  /** The places where blocks start. */
  function BlockStarts(blocks: seq<Block>): set<nat> {
    set k | 0 <= k < |blocks| :: blocks[k].start
  }

  /** Blocks start exactly where a function, a target or the instruction behind a transfer is. */
  ghost predicate ExactStarts(v: Version, registry: map<nat, nat>, list: seq<Located>, blocks: seq<Block>) {
    forall x: nat :: x in BlockStarts(blocks) <==> IsStart(v, registry, list, x)
  }

  /** Transfers end blocks: no instruction of a block but its last one transfers control. */
  ghost predicate TransfersEnd(v: Version, registry: map<nat, nat>, list: seq<Located>, blocks: seq<Block>) {
    forall k, i: nat :: 0 <= k < |blocks| && blocks[k].first <= i && i + 1 < blocks[k].end && i < |list| ==>
      Transfer(v, registry, list, i).None?
  }

  /** What a block's destinations are. */
  ghost predicate Leads(v: Version, registry: map<nat, nat>, list: seq<Located>, blocks: seq<Block>, k: nat)
    requires k < |blocks|
  {
    && 0 < blocks[k].end <= |list|
    && match Transfer(v, registry, list, blocks[k].end - 1)
       case Some(targets) => blocks[k].destinations == Retain(targets, BlockStarts(blocks))
       case None =>
         blocks[k].destinations ==
           if k + 1 < |blocks| && blocks[k].start !in registry.Values then [blocks[k + 1].start] else []
  }

  ghost predicate IsSplit(v: Version, registry: map<nat, nat>, list: seq<Located>, blocks: seq<Block>) {
    && Partition(list, blocks) && ExactStarts(v, registry, list, blocks) && TransfersEnd(v, registry, list, blocks)
    && forall k :: 0 <= k < |blocks| ==> Leads(v, registry, list, blocks, k)
  }

  /** Blocks start where the instructions ask for it, and lead where their last instructions go. */
  ghost predicate CutsRight(v: Version, registry: map<nat, nat>, list: seq<Located>, blocks: seq<Block>) {
    && (forall x: nat :: x in BlockStarts(blocks) <==> IsPlace(list, x) && StartsAt(v, registry, list, x))
    && (forall k, i: nat :: 0 <= k < |blocks| && blocks[k].first <= i && i + 1 < blocks[k].end && i < |list| ==>
          !Moves(v, registry, list, i))
    && (forall k: nat :: k < |blocks| ==> LeadsRight(v, registry, list, blocks, k))
  }

  ghost predicate LeadsRight(v: Version, registry: map<nat, nat>, list: seq<Located>, blocks: seq<Block>, k: nat)
    requires k < |blocks|
  {
    && 0 < blocks[k].end <= |list|
    && blocks[k].destinations ==
       if Moves(v, registry, list, blocks[k].end - 1) then Goals(v, registry, list, blocks[k].end - 1)
       else if k + 1 < |blocks| && blocks[k].start !in registry.Values then [blocks[k + 1].start] else []
  }

  lemma SplitCutsRight(v: Version, registry: map<nat, nat>, list: seq<Located>, blocks: seq<Block>)
    requires Addressable(list) && IsSplit(v, registry, list, blocks)
    ensures CutsRight(v, registry, list, blocks)
  {
    hide Transfer, Moves, Goals, StartsAt, BlockStarts, Retain, Partition, Demanded, Addressable;
    forall x: nat ensures x in BlockStarts(blocks) <==> IsPlace(list, x) && StartsAt(v, registry, list, x) {
      assert x in BlockStarts(blocks) <==> IsStart(v, registry, list, x);
      if IsPlace(list, x) {
        StartLaw(v, registry, list, x);
      }
    }
    forall k, i: nat | 0 <= k < |blocks| && blocks[k].first <= i && i + 1 < blocks[k].end && i < |list|
      ensures !Moves(v, registry, list, i)
    {
      MoveLaw(v, registry, list, i);
    }
    forall k: nat | k < |blocks| ensures LeadsRight(v, registry, list, blocks, k) {
      assert Leads(v, registry, list, blocks, k);
      var last := blocks[k].end - 1;
      MoveLaw(v, registry, list, last);
      if Moves(v, registry, list, last) {
        GoalLaw(v, registry, list, last, BlockStarts(blocks));
      }
    }
  }

  /** Starts that are not instructions are dropped, together with the edges to them; then the blocks are cut. */
  method SplitIntoBasicBlocks(v: Version, registry: map<nat, nat>, list: seq<Located>) returns (blocks: seq<Block>)
    requires Listed(list)
    ensures IsSplit(v, registry, list, blocks)
    ensures Addressable(list) ==> CutsRight(v, registry, list, blocks)
  {
    hide StartsOf, EdgesOf, Positions, IsBlock, IsSplit, GoodKeys, EndsBlock, Retain, CutsRight, Addressable;
    var starts, edges := Collect(v, registry, list);
    var kept := set i: nat | i < |list| && list[i].ptr in starts :: list[i].ptr;
    var retained := map p | p in edges :: Retain(edges[p], kept);
    var keys := Positions(list, kept, |list|);
    var transfers := Positions(list, retained.Keys, |list|);
    assert retained.Keys == edges.Keys;
    WalkIsReady(v, registry, list, starts, edges, kept, keys, transfers);
    blocks := Walk(list, keys, transfers, retained, registry.Values);
    WalkIsSplit(v, registry, list, starts, edges, kept, retained, keys, blocks);
    if Addressable(list) {
      SplitCutsRight(v, registry, list, blocks);
    }
  }

  lemma WalkIsReady(v: Version, registry: map<nat, nat>, list: seq<Located>, starts: set<nat>,
                    edges: map<nat, seq<nat>>, kept: set<nat>, keys: seq<nat>, transfers: seq<nat>)
    requires Listed(list) && StartsOf(v, registry, list, |list|, starts) && EdgesOf(v, registry, list, |list|, edges)
    requires forall x: nat :: x in kept <==> x in starts && exists i: nat :: i < |list| && list[i].ptr == x
    requires keys == Positions(list, kept, |list|) && transfers == Positions(list, edges.Keys, |list|)
    ensures GoodKeys(list, keys) && EndsBlock(list, keys, transfers)
    ensures forall i: nat :: i < |list| ==> (i in transfers <==> list[i].ptr in edges)
  {
    hide Positions, Transfer, NewStarts;
    PositionsAreExact(list, kept, |list|);
    PositionsAreExact(list, edges.Keys, |list|);
    forall k | 0 <= k < |keys| ensures keys[k] < |list| {
      assert keys[k] in keys;
    }
    if |list| > 0 {
      assert 0 in kept && 0 in keys;
      var z :| 0 <= z < |keys| && keys[z] == 0;
    }
    forall t: nat | t in transfers ensures t < |list| && (t + 1 == |list| || t + 1 in keys) {
      TransferStartsNext(v, registry, list, starts, edges, t);
    }
  }

  lemma TransferStartsNext(v: Version, registry: map<nat, nat>, list: seq<Located>, starts: set<nat>,
                           edges: map<nat, seq<nat>>, t: nat)
    requires Listed(list) && StartsOf(v, registry, list, |list|, starts) && EdgesOf(v, registry, list, |list|, edges)
    requires t < |list| && list[t].ptr in edges
    ensures t + 1 < |list| ==> list[t + 1].ptr in starts
  {
    hide Transfer, NewStarts;
    assert Transfer(v, registry, list, t).Some?;
    TransferFacts(v, registry, list, t);
    assert Demanded(v, registry, list, |list|, list[t].ptr + 1);
  }

  /** The blocks of a walk over the keys. */
  ghost predicate Walked(list: seq<Located>, keys: seq<nat>, edges: map<nat, seq<nat>>, functions: set<nat>,
                         blocks: seq<Block>) {
    && GoodKeys(list, keys) && |blocks| == |keys|
    && forall k :: 0 <= k < |keys| ==> IsBlock(list, keys, edges, functions, k, blocks[k])
  }

  lemma WalkPartitions(list: seq<Located>, keys: seq<nat>, edges: map<nat, seq<nat>>, functions: set<nat>,
                       blocks: seq<Block>)
    requires Walked(list, keys, edges, functions, blocks)
    ensures Partition(list, blocks)
  {
    hide Successors, Listed;
    forall k | 0 <= k && k + 1 < |blocks| ensures blocks[k].end == blocks[k + 1].first {
      assert IsBlock(list, keys, edges, functions, k, blocks[k]);
      assert IsBlock(list, keys, edges, functions, k + 1, blocks[k + 1]);
    }
    if |list| > 0 {
      assert IsBlock(list, keys, edges, functions, 0, blocks[0]);
      assert IsBlock(list, keys, edges, functions, |keys| - 1, blocks[|keys| - 1]);
    }
    if |keys| > 0 {
      assert keys[0] < |list|;
    }
  }

  lemma WalkStarts(list: seq<Located>, keys: seq<nat>, edges: map<nat, seq<nat>>, functions: set<nat>,
                   blocks: seq<Block>, kept: set<nat>, x: nat)
    requires Walked(list, keys, edges, functions, blocks)
    requires forall i: nat :: i in keys <==> i < |list| && list[i].ptr in kept
    requires x in kept ==> exists i: nat :: i < |list| && list[i].ptr == x
    ensures x in BlockStarts(blocks) <==> x in kept
  {
    hide Successors, GoodKeys;
    if x in BlockStarts(blocks) {
      var k :| 0 <= k < |blocks| && blocks[k].start == x;
      assert IsBlock(list, keys, edges, functions, k, blocks[k]) && keys[k] in keys;
    }
    if x in kept {
      var i: nat :| i < |list| && list[i].ptr == x;
      assert i in keys;
      var k :| 0 <= k < |keys| && keys[k] == i;
      assert IsBlock(list, keys, edges, functions, k, blocks[k]);
    }
  }

  lemma WalkEnds(list: seq<Located>, keys: seq<nat>, transfers: seq<nat>, edges: map<nat, seq<nat>>,
                 functions: set<nat>, blocks: seq<Block>, k: nat, i: nat)
    requires Walked(list, keys, edges, functions, blocks) && EndsBlock(list, keys, transfers)
    requires k < |blocks| && blocks[k].first <= i && i + 1 < blocks[k].end
    ensures i !in transfers
  {
    hide Successors, Listed;
    assert IsBlock(list, keys, edges, functions, k, blocks[k]);
    if i in transfers {
      assert i + 1 in keys;
      var j :| 0 <= j < |keys| && keys[j] == i + 1;
    }
  }

  lemma WalkLeads(v: Version, registry: map<nat, nat>, list: seq<Located>, edges: map<nat, seq<nat>>, kept: set<nat>,
                  retained: map<nat, seq<nat>>, keys: seq<nat>, blocks: seq<Block>, k: nat)
    requires EdgesOf(v, registry, list, |list|, edges) && retained == map p | p in edges :: Retain(edges[p], kept)
    requires Walked(list, keys, retained, registry.Values, blocks) && k < |blocks|
    requires BlockStarts(blocks) == kept
    ensures Leads(v, registry, list, blocks, k)
  {
    hide Transfer, BlockStarts, Listed;
    assert IsBlock(list, keys, retained, registry.Values, k, blocks[k]);
    var last: nat := blocks[k].end - 1;
    assert list[last].ptr in edges <==> Transfer(v, registry, list, last).Some?;
    if k + 1 < |blocks| {
      assert IsBlock(list, keys, retained, registry.Values, k + 1, blocks[k + 1]);
    }
  }

  lemma WalkIsSplit(v: Version, registry: map<nat, nat>, list: seq<Located>, starts: set<nat>,
                    edges: map<nat, seq<nat>>, kept: set<nat>, retained: map<nat, seq<nat>>,
                    keys: seq<nat>, blocks: seq<Block>)
    requires Listed(list) && StartsOf(v, registry, list, |list|, starts) && EdgesOf(v, registry, list, |list|, edges)
    requires forall x: nat :: x in kept <==> x in starts && exists i: nat :: i < |list| && list[i].ptr == x
    requires retained == map p | p in edges :: Retain(edges[p], kept)
    requires keys == Positions(list, kept, |list|) && EndsBlock(list, keys, Positions(list, edges.Keys, |list|))
    requires Walked(list, keys, retained, registry.Values, blocks)
    ensures IsSplit(v, registry, list, blocks)
  {
    hide Positions, Transfer, Walked, Partition, Leads, EndsBlock, Listed, BlockStarts;
    PositionsAreExact(list, kept, |list|);
    PositionsAreExact(list, edges.Keys, |list|);
    WalkPartitions(list, keys, retained, registry.Values, blocks);
    forall x: nat ensures x in BlockStarts(blocks) <==> x in kept {
      WalkStarts(list, keys, retained, registry.Values, blocks, kept, x);
    }
    assert BlockStarts(blocks) == kept;
    var transfers := Positions(list, edges.Keys, |list|);
    forall k, i: nat | 0 <= k < |blocks| && blocks[k].first <= i && i + 1 < blocks[k].end && i < |list|
      ensures Transfer(v, registry, list, i).None?
    {
      BlockCount(list, keys, retained, registry.Values, blocks);
      WalkEnds(list, keys, transfers, retained, registry.Values, blocks, k, i);
      assert list[i].ptr !in edges;
    }
    forall k | 0 <= k < |blocks| ensures Leads(v, registry, list, blocks, k) {
      WalkLeads(v, registry, list, edges, kept, retained, keys, blocks, k);
    }
  }

  lemma BlockCount(list: seq<Located>, keys: seq<nat>, edges: map<nat, seq<nat>>, functions: set<nat>,
                   blocks: seq<Block>)
    requires Walked(list, keys, edges, functions, blocks)
    ensures |blocks| == |keys|
  {
  }

  // ---------------------------------------------------------------- the graph

  /** Every destination of a block is the start of a block. */
  lemma DestinationsAreStarts(v: Version, registry: map<nat, nat>, list: seq<Located>, blocks: seq<Block>, k: nat,
                              x: nat)
    requires IsSplit(v, registry, list, blocks) && k < |blocks| && x in blocks[k].destinations
    ensures x in BlockStarts(blocks)
  {
    hide Transfer, Partition, ExactStarts, TransfersEnd;
    assert Leads(v, registry, list, blocks, k);
  }

  /** Different blocks start at different places. */
  lemma StartsAreDistinct(list: seq<Located>, blocks: seq<Block>, j: nat, k: nat)
    requires Listed(list) && Partition(list, blocks) && j < k < |blocks|
    ensures blocks[j].first < blocks[k].first && blocks[j].start < blocks[k].start
    decreases k
  {
    if j < k - 1 {
      StartsAreDistinct(list, blocks, j, k - 1);
    }
    assert blocks[k - 1].end == blocks[(k - 1) + 1].first;
    PlacesAreDistinct(list);
  }

  /** The number of the block that starts at x. */
  function BlockNumber(blocks: seq<Block>, x: nat): (k: nat)
    requires x in BlockStarts(blocks)
    ensures k < |blocks| && blocks[k].start == x
  {
    if blocks[|blocks| - 1].start == x then |blocks| - 1 else BlockNumber(blocks[..|blocks| - 1], x)
  }

  /** Blocks and edges as a graph whose vertices are the numbers of the blocks. */
  function GraphOf(blocks: seq<Block>): (g: Graph)
    requires forall k, x :: 0 <= k < |blocks| && x in blocks[k].destinations ==> x in BlockStarts(blocks)
    ensures |g| == |blocks|
  {
    seq(|blocks|, k requires 0 <= k < |blocks| =>
      seq(|blocks[k].destinations|,
        j requires 0 <= j < |blocks[k].destinations| => BlockNumber(blocks, blocks[k].destinations[j])))
  }

  /** An edge of the graph is a destination of the block. */
  lemma GraphIsExact(v: Version, registry: map<nat, nat>, list: seq<Located>, blocks: seq<Block>, u: nat, w: nat)
    requires Listed(list) && IsSplit(v, registry, list, blocks)
    requires forall k, x :: 0 <= k < |blocks| && x in blocks[k].destinations ==> x in BlockStarts(blocks)
    requires u < |blocks| && w < |blocks|
    ensures Edge(GraphOf(blocks), u, w) <==> blocks[w].start in blocks[u].destinations
  {
    hide ExactStarts, TransfersEnd, Leads, Listed, Partition;
    var g := GraphOf(blocks);
    var d := blocks[u].destinations;
    if blocks[w].start in d {
      var j :| 0 <= j < |d| && d[j] == blocks[w].start;
      SameStart(list, blocks, BlockNumber(blocks, d[j]), w);
      assert g[u][j] == w;
    }
    if Edge(g, u, w) {
      var j :| 0 <= j < |g[u]| && g[u][j] == w;
      assert d[j] == blocks[w].start;
    }
  }

  lemma SameStart(list: seq<Located>, blocks: seq<Block>, j: nat, k: nat)
    requires Listed(list) && Partition(list, blocks) && j < |blocks| && k < |blocks|
    requires blocks[j].start == blocks[k].start
    ensures j == k
  {
    if j < k {
      StartsAreDistinct(list, blocks, j, k);
    } else if k < j {
      StartsAreDistinct(list, blocks, k, j);
    }
  }

  /** Enters every edge at its destination. */
  method LinkEdges(g: Graph) returns (sources: seq<seq<nat>>)
    ensures Inverse(g, sources)
  {
    hide Closed;
    var vec := new seq<nat>[|g|](_ => []);
    for u := 0 to |g|
      invariant forall v: nat :: v < |g| ==> SourcesUpTo(g, vec[v], u, 0, v)
    {
      for j := 0 to |g[u]|
        invariant forall v: nat :: v < |g| ==> SourcesUpTo(g, vec[v], u, j, v)
      {
        DestinationInRange(g, u, j);
        vec[g[u][j]] := vec[g[u][j]] + [u];
      }
    }
    sources := vec[..];
  }

  lemma DestinationInRange(g: Graph, u: nat, j: nat)
    requires u < |g| && j < |g[u]|
    ensures g[u][j] < |g|
  {
  }

  /** The sources of v that come from blocks before u, and from the first j destinations of u. */
  ghost predicate SourcesUpTo(g: Graph, s: seq<nat>, u: nat, j: nat, v: nat) {
    forall x: nat :: x in s <==> (x < u && x < |g| && v in g[x]) || (x == u < |g| && j <= |g[u]| && v in g[u][..j])
  }
}
