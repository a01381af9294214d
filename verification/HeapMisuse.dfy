/** When the allocator detects invalid frees: in every state of a run exactly as long as the
    program stores no word that passes for the header of an allocated chunk. */
module HeapMisuse {
  import opened Options
  import opened HeapLayout
  import opened HeapSpec
  import opened HeapTheorems

  /** myfree accepts the live blocks and rejects every other pointer. */
  ghost predicate Detects(h: HeapState) {
    forall o :: Free(h, Addr(o)).1 == Returned <==> NamesBlock(h, o)
  }

  /** No word but the headers of live blocks passes for one. */
  ghost predicate Honest(h: HeapState) {
    forall i: nat :: i < WORDS && Disguise(i, h.words[i]) ==> i in h.Blocks()
  }

  lemma NamedIsReturned(h: HeapState, o: int)
    requires h.Valid() && NamesBlock(h, o)
    ensures Free(h, Addr(o)).1 == Returned
  {
    var k :| k in h.Blocks() && o == 8 * (k + 1);
    hide *;
    LiveIsAccepted(h, k);
    ReturnsIff(h, o);
  }

  /** Invalid frees are detected in a state exactly when it is honest. */
  lemma DetectsIff(h: HeapState)
    requires h.Valid()
    ensures Detects(h) <==> Honest(h)
  {
    hide HeapState.Valid, HeapState.Blocks, Disguise, Free;
    if Detects(h) {
      forall i: nat | i < WORDS && Disguise(i, h.words[i]) ensures i in h.Blocks() {
        AcceptsIff(h, 8 * (i + 1));
        ReturnsIff(h, 8 * (i + 1));
      }
    }
    if Honest(h) {
      forall o ensures Free(h, Addr(o)).1 == Returned <==> NamesBlock(h, o) {
        AcceptsIff(h, o);
        ReturnsIff(h, o);
        if NamesBlock(h, o) {
          NamedIsReturned(h, o);
        }
      }
    }
  }

  // ----- what a step does to honesty -----

  /** Writing headers of live and free chunks adds no word that passes for a live header,
      except those of live blocks. */
  lemma {:induction false} WrittenIsHonest(w: Memory, cs: Layout)
    requires Span(cs) == WORDS
    requires forall i: nat :: i < WORDS && i !in At(0, cs) && Disguise(i, w[i]) ==> i in Live(0, cs)
    ensures Honest(HeapState(Written(w, cs), true))
  {
    hide Disguise, At, Live, Decode, Span;
    WrittenHolds(w, cs);
    forall i: nat | i < WORDS && Disguise(i, Written(w, cs)[i]) ensures i in Live(0, cs) {
      LiveIsUsed(0, cs, i);
      if i in At(0, cs) {
        FreeHeaderIsEven(i, At(0, cs)[i]);
      }
    }
  }

  /** The header of a free chunk is even. */
  lemma FreeHeaderIsEven(i: nat, c: Chunk)
    requires c.len < WORDS && Disguise(i, Header(c))
    ensures c.used
  {
  }

  /** The words of a heap before its first malloc, and after, with headers left aside. */
  lemma InitializedWords(h: HeapState, i: nat)
    requires h.Valid() && i < WORDS
    ensures Disguise(i, Initialized(h).words[i]) ==> Disguise(i, h.words[i])
  {
  }

  lemma InitializedIsHonest(h: HeapState)
    requires h.Valid() && Honest(h)
    ensures Honest(Initialized(h))
  {
    hide Disguise, Initialized, HeapState.Valid, HeapState.Blocks;
    InitializedFacts(h);
    forall i: nat | i < WORDS && Disguise(i, Initialized(h).words[i]) ensures i in Initialized(h).Blocks() {
      InitializedWords(h, i);
    }
  }

  lemma MallocIsHonest(h: HeapState, size: Word)
    requires h.Valid() && Honest(h) && 0 < size <= MAX_REQUEST
    ensures Honest(Malloc(h, size).0)
  {
    hide *;
    InitializedFacts(h);
    InitializedIsHonest(h);
    var g := Initialized(h);
    MallocCases(h, g, size);
    if FirstFit(g.Chunks(), Request(size)).Some? {
      TakenIsHonest(h, size, g);
    }
  }

  lemma TakenIsHonest(h: HeapState, size: Word, g: HeapState)
    requires h.Valid() && 0 < size <= MAX_REQUEST && g == Initialized(h) && Honest(g)
    requires FirstFit(g.Chunks(), Request(size)).Some?
    ensures Honest(Malloc(h, size).0)
  {
    hide Disguise, At, Live, Decode, Take, Written, FirstFit, Malloc, Initialized, Span, Carve;
    var t := Take(g.Chunks(), FirstFit(g.Chunks(), Request(size)).value, Request(size));
    InitializedFacts(h);
    TakenBlock(h, size);
    MallocCases(h, g, size);
    assert Live(0, t) == Malloc(h, size).0.Blocks();
    WrittenIsHonest(g.words, t);
  }

  lemma FreedIsHonest(h: HeapState, o: int)
    requires h.Valid() && Honest(h)
    ensures Honest(Free(h, Addr(o)).0)
  {
    hide Disguise, At, Live, Decode, Written, Span, FreedChunks, Unflagged, Accepts, Free;
    ReturnsIff(h, o);
    if Accepts(h, o) {
      FreedFacts(h, o);
      FreedHeap(h, o);
      forall i: nat | i < WORDS && Disguise(i, Unflagged(h, o)[i]) ensures i in Live(0, FreedChunks(h, o)) {
        UnflaggedIsEven(h, o);
        if i != o / 8 - 1 {
          UnflaggedWord(h, o, i);
        }
      }
      WrittenIsHonest(Unflagged(h, o), FreedChunks(h, o));
    } else {
      FreeOutcome(h, o);
    }
  }

  lemma UnflaggedIsEven(h: HeapState, o: int)
    requires Accepts(h, o)
    ensures 0 <= o / 8 - 1 < WORDS && !Disguise(o / 8 - 1, Unflagged(h, o)[o / 8 - 1])
  {
  }

  predicate StoresDisguise(op: Op) {
    op.StoreOp? && Disguise(op.i, op.v)
  }

  /** A step keeps a heap honest exactly when it does not store such a word. */
  lemma StepIsHonestIff(h: HeapState, op: Op)
    requires h.Valid() && Honest(h) && Enabled(h, op)
    ensures Honest(Step(h, op)) <==> !StoresDisguise(op)
  {
    hide Disguise, Malloc, Free, HeapState.Valid, HeapState.Blocks;
    match op
    case MallocOp(size) =>
      if size == 0 { MallocNothing(h); InitializedIsHonest(h); } else { MallocIsHonest(h, size); }
    case FreeOp(p) =>
      if p.Addr? { FreedIsHonest(h, p.offset); } else { FreeNull(h); }
    case StoreOp(i, v) => StoreIsHonestIff(h, i, v);
  }

  lemma MallocNothing(h: HeapState)
    ensures Malloc(h, 0).0 == Initialized(h)
  {
  }

  lemma StoreIsHonestIff(h: HeapState, i: nat, v: Word)
    requires h.Valid() && Honest(h) && i < WORDS && InPayload(h, i)
    ensures Honest(Store(h, i, v)) <==> !Disguise(i, v)
  {
    hide Disguise, Decode, Live;
    StoreKeepsHeaders(h, i, v);
    PayloadIsNoHeader(h, i);
    var g := Store(h, i, v);
    assert g.words[i] == v && g.Blocks() == h.Blocks();
    assert forall j: nat :: j < WORDS && j != i ==> g.words[j] == h.words[j];
  }

  lemma PayloadIsNoHeader(h: HeapState, i: nat)
    requires h.Valid() && InPayload(h, i)
    ensures i !in h.Blocks()
  {
    var k :| k in h.Blocks() && k < i < k + 1 + h.Blocks()[k];
    if i in h.Blocks() {
      BlocksDisjoint(h, k, i);
    }
  }

  // ----- every run -----

  /** Invalid frees are detected in every state of the run. */
  ghost predicate AlwaysDetects(h: HeapState, ops: seq<Op>)
    requires Legal(h, ops)
    decreases |ops|
  {
    Detects(h) && (ops == [] || AlwaysDetects(Step(h, ops[0]), ops[1..]))
  }

  lemma {:induction false} RunDetectsIff(h: HeapState, ops: seq<Op>)
    requires h.Valid() && Honest(h) && Legal(h, ops)
    ensures AlwaysDetects(h, ops) <==> forall op <- ops :: !StoresDisguise(op)
    ensures (forall op <- ops :: !StoresDisguise(op)) ==> Honest(Run(h, ops))
    decreases |ops|
  {
    hide Honest, Detects, Step, Enabled, StoresDisguise, HeapState.Valid;
    DetectsIff(h);
    if ops != [] {
      var op, g := ops[0], Step(h, ops[0]);
      StepIsHonestIff(h, op);
      StepKeepsValid(h, op);
      assert ops == [op] + ops[1..];
      if StoresDisguise(op) {
        DetectsIff(g);
        DetectsNow(g, ops[1..]);
      } else {
        RunDetectsIff(g, ops[1..]);
      }
    }
  }

  lemma {:induction false} DetectsNow(h: HeapState, ops: seq<Op>)
    requires Legal(h, ops)
    ensures AlwaysDetects(h, ops) ==> Detects(h)
  {
  }

  lemma StartIsHonest()
    ensures START.Valid() && Honest(START)
  {
  }

  /** Along a run of the program, myfree accepts exactly the live blocks in every state if
      and only if the program never stores a word that passes for the header of an allocated
      chunk: odd, above 1, and with a size that fits or makes the end address wrap around. */
  lemma {:induction false} InvalidFreesDetectedIff(ops: seq<Op>)
    requires Legal(START, ops)
    ensures AlwaysDetects(START, ops) <==> forall op <- ops :: !StoresDisguise(op)
  {
    StartIsHonest();
    RunDetectsIff(START, ops);
  }

  /** In particular, a program that stores even words only has all its frees checked. */
  lemma {:induction false} EvenStoresAreChecked(ops: seq<Op>, o: int)
    requires Legal(START, ops) && forall op <- ops :: op.StoreOp? ==> op.v % 2 == 0
    ensures Free(Run(START, ops), Addr(o)).1 == Returned <==> exists k <- Run(START, ops).Blocks() :: o == 8 * (k + 1)
  {
    forall op <- ops ensures !StoresDisguise(op) {
    }
    hide Honest, StoresDisguise, Free, Run, Legal;
    StartIsHonest();
    RunDetectsIff(START, ops);
    RunKeepsValid(START, ops);
    DetectsIff(Run(START, ops));
  }

  /** After malloc(16) and a store of any word at the start of the block, the second word of
      the block, where no block starts, is accepted exactly when the stored word passes for a
      header. */
  lemma OffsetPointerIff(v: Word)
    ensures var ops := [MallocOp(16), StoreOp(1, v)];
            && Legal(START, ops)
            && !NamesBlock(Run(START, ops), 16)
            && (Free(Run(START, ops), Addr(16)).1 == Returned <==> Disguise(1, v))
  {
    SmallBlock();
    var h := Malloc(START, 16).0;
    var g := Store(h, 1, v);
    StoreKeepsHeaders(h, 1, v);
    RunOfTwo(h, v, g);
    hide Malloc, Run, Legal, Decode, Free, Disguise;
    assert g.words[1] == v && g.Blocks() == h.Blocks();
    AcceptsIff(g, 16);
    ReturnsIff(g, 16);
  }

  /** Two invalid frees that are not detected, wherever the arena lies: the stored word is 9,
      a size that fits, or has all its bits set, a size that makes the end address wrap. */
  lemma OffsetPointerAccepted(v: Word)
    requires v == 9 || v == TWO_TO_64 - 1
    ensures var ops := [MallocOp(16), StoreOp(1, v)];
            && Legal(START, ops)
            && !NamesBlock(Run(START, ops), 16)
            && Free(Run(START, ops), Addr(16)).1 == Returned
  {
    hide Free, Run, Legal, Disguise, NamesBlock;
    OffsetPointerIff(v);
    DisguiseIff(1, v);
  }

  lemma SmallBlock()
    ensures var h := Malloc(START, 16).0; h.Valid() && h.ready && h.Blocks() == map[0 := 2] && InPayload(h, 1)
  {
    StartIsHonest();
    InitializedFacts(START);
    var cs := Initialized(START).Chunks();
    hide Decode, Initialized, Malloc, Written, HeapState.Valid, HeapState.Blocks;
    assert FirstFit(cs, 2) == Some(0) && Request(16) == 2;
    assert cs[..0] == [];
    TakenBlock(START, 16);
    NoBlocks();
    var h := Malloc(START, 16).0;
    assert h.Blocks() == map[0 := 2];
    assert 0 in h.Blocks();
  }

  lemma NoBlocks()
    ensures START.Blocks() == map[]
  {
  }

  lemma RunOfTwo(h: HeapState, v: Word, g: HeapState)
    requires START.Valid() && h == Malloc(START, 16).0 && InPayload(h, 1) && g == Store(h, 1, v)
    ensures Legal(START, [MallocOp(16), StoreOp(1, v)]) && Run(START, [MallocOp(16), StoreOp(1, v)]) == g
  {
    hide Malloc, Store, InPayload;
    var ops := [MallocOp(16), StoreOp(1, v)];
    assert ops[1..] == [StoreOp(1, v)] && ops[1..][1..] == [];
    assert Step(START, ops[0]) == h && Step(h, ops[1..][0]) == g;
    assert Legal(g, []) && Run(g, []) == g;
    assert Legal(h, ops[1..]) && Run(h, ops[1..]) == Run(g, []);
  }
}
