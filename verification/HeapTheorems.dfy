/** What holds of every run of mymalloc, myfree and stores into live payloads. */
module HeapTheorems {
  import opened Options
  import opened HeapLayout
  import opened HeapSpec

  // ----- runs -----

  datatype Op = MallocOp(size: Word) | FreeOp(p: Pointer) | StoreOp(i: nat, v: Word)

  /** What a program may do: any request that does not wrap around, any pointer at all to
      myfree, and stores into live payloads only. */
  predicate Enabled(h: HeapState, op: Op) {
    match op
    case MallocOp(size) => size <= MAX_REQUEST
    case FreeOp(p) => true
    case StoreOp(i, v) => i < WORDS && InPayload(h, i)
  }

  function Step(h: HeapState, op: Op): HeapState
    requires Enabled(h, op)
  {
    match op
    case MallocOp(size) => Malloc(h, size).0
    case FreeOp(p) => Free(h, p).0
    case StoreOp(i, v) => Store(h, i, v)
  }

  predicate Legal(h: HeapState, ops: seq<Op>)
    decreases |ops|
  {
    ops == [] || (Enabled(h, ops[0]) && Legal(Step(h, ops[0]), ops[1..]))
  }

  function Run(h: HeapState, ops: seq<Op>): HeapState
    requires Legal(h, ops)
    decreases |ops|
  {
    if ops == [] then h else Run(Step(h, ops[0]), ops[1..])
  }

  // ----- one call -----

  /** mymalloc returns NULL exactly when no free chunk holds the rounded request, and then
      changes nothing; otherwise it picks the lowest-addressed free chunk that does. */
  lemma MallocFinds(h: HeapState, size: Word)
    requires h.Valid() && 0 < size <= MAX_REQUEST
    ensures var cs := Initialized(h).Chunks(); var (g, p) := Malloc(h, size);
            && (p.None? <==> forall i :: 0 <= i < |cs| ==> cs[i].used || 8 * cs[i].len < Aligned(size))
            && (p.None? ==> g == Initialized(h))
            && (p.Some? ==>
                  var k := p.value / 8 - 1;
                  && p.value % 8 == 0 && k >= 0
                  && k in At(0, cs) && !At(0, cs)[k].used && Aligned(size) <= 8 * At(0, cs)[k].len
                  && forall j <- At(0, cs) :: j < k ==> At(0, cs)[j].used || 8 * At(0, cs)[j].len < Aligned(size))
  {
    hide Malloc, Initialized, HeapState.Valid, HeapState.Chunks, Aligned, FirstFit, Span, At, Request;
    MallocSearch(h, size);
    var cs := Initialized(h).Chunks();
    RequestFacts(size);
    var r := FirstFit(cs, Request(size));
    if r.Some? {
      HeaderAt(0, cs, r.value);
      forall j <- At(0, cs) | j < Span(cs[..r.value]) ensures At(0, cs)[j].used || At(0, cs)[j].len < Request(size) {
        EarlierHeader(cs, j, r.value);
      }
    }
  }

  /** mymalloc keeps the invariant. A request that succeeds adds exactly one block, new and
      at most 15 bytes larger than the request. */
  lemma MallocOutcome(h: HeapState, size: Word)
    requires h.Valid() && 0 < size <= MAX_REQUEST
    ensures Malloc(h, size).0.Valid() && Malloc(h, size).0.ready
    ensures var (g, p) := Malloc(h, size);
            && (p.None? ==> g.Blocks() == h.Blocks())
            && (p.Some? ==>
                  var k := p.value / 8 - 1;
                  && p.value == 8 * (k + 1) && k >= 0
                  && k !in h.Blocks()
                  && k in g.Blocks() && g.Blocks() == h.Blocks()[k := g.Blocks()[k]]
                  && size <= 8 * g.Blocks()[k] <= size + 15)
  {
    hide Malloc, Initialized, HeapState.Valid, HeapState.Blocks, HeapState.Chunks;
    hide Aligned, FirstFit, Span, Take, Request;
    MallocSearch(h, size);
    InitializedFacts(h);
    RequestFacts(size);
    var cs := Initialized(h).Chunks();
    if FirstFit(cs, Request(size)).Some? {
      TakenBlock(h, size);
    }
  }

  lemma MallocSearch(h: HeapState, size: Word)
    requires h.Valid() && 0 < size <= MAX_REQUEST
    ensures Initialized(h).Valid() && Initialized(h).ready
    ensures var (g, p) := Malloc(h, size);
            match FirstFit(Initialized(h).Chunks(), Request(size))
            case None => g == Initialized(h) && p == None
            case Some(i) => p == Some(8 * (Span(Initialized(h).Chunks()[..i]) + 1))
  {
    InitializedFacts(h);
    MallocCases(h, Initialized(h), size);
  }

  /** The new state of a request that succeeds. */
  lemma TakenBlock(h: HeapState, size: Word)
    requires h.Valid() && 0 < size <= MAX_REQUEST
    requires FirstFit(Initialized(h).Chunks(), Request(size)).Some?
    ensures var g := Malloc(h, size).0;
            var cs, i := Initialized(h).Chunks(), FirstFit(Initialized(h).Chunks(), Request(size)).value;
            && g.Valid() && g.ready
            && g.Chunks() == Take(cs, i, Request(size))
            && Span(cs[..i]) !in h.Blocks()
            && g.Blocks() == h.Blocks()[Span(cs[..i]) := Carve(cs[i], Request(size))[0].len]
  {
    var g, n := Initialized(h), Request(size);
    var cs := g.Chunks();
    var i := FirstFit(cs, n).value;
    InitializedFacts(h);
    MallocCases(h, g, size);
    hide Malloc, Initialized, Written, Take, Live, Span, Carve, Decode;
    TakeFacts(0, cs, i, n, Span(cs[..i]));
    TakeIsNormal(cs, i, n);
    TakenIsNew(cs, i);
    WrittenHolds(g.words, Take(cs, i, n));
  }

  lemma {:induction false} EarlierHeader(cs: Layout, j: nat, i: nat)
    requires i <= |cs| && j in At(0, cs) && j < Span(cs[..i])
    ensures IndexOf(0, cs, j) < i
  {
    var m := IndexOf(0, cs, j);
    if i <= m {
      assert cs[..m] == cs[..i] + cs[i..m];
      SpanAppend(cs[..i], cs[i..m]);
    }
  }

  /** A request for 0 bytes only initializes the arena. */
  lemma MallocZero(h: HeapState)
    requires h.Valid()
    ensures Malloc(h, 0).0.Valid() && Malloc(h, 0).0.Blocks() == h.Blocks() && Malloc(h, 0).1 == None
  {
    InitializedFacts(h);
  }

  /** myfree of NULL does nothing. */
  lemma FreeNull(h: HeapState)
    ensures Free(h, Null) == (h, Returned)
  {
  }

  /** The chunk list that an accepted myfree leaves. */
  function FreedChunks(h: HeapState, o: int): Layout
    requires Accepts(h, o)
  {
    Coalesced(Decode(Unflagged(h, o), 0))
  }

  lemma FreedFacts(h: HeapState, o: int)
    requires h.Valid() && Accepts(h, o)
    ensures h.ready && Span(FreedChunks(h, o)) == WORDS && Normal(FreedChunks(h, o))
    ensures Live(0, FreedChunks(h, o)) == h.Blocks() - {o / 8 - 1}
    ensures o / 8 - 1 !in At(0, h.Chunks()) ==> FreedChunks(h, o) == h.Chunks()
  {
    var k, w, cs := o / 8 - 1, Unflagged(h, o), h.Chunks();
    ClearFlag(h, o);
    CoalescedIsNormal(Decode(w, 0));
    LiveIsUsed(0, cs, k);
    if k in At(0, cs) {
      FreeFacts(cs, k);
    } else {
      CoalescedOfNormal(cs);
    }
  }

  lemma FreedHeap(h: HeapState, o: int)
    requires h.Valid() && Accepts(h, o)
    ensures Free(h, Addr(o)) == (HeapState(Written(Unflagged(h, o), FreedChunks(h, o)), true), Returned)
    ensures Free(h, Addr(o)).0.Chunks() == FreedChunks(h, o)
  {
    FreedFacts(h, o);
    WrittenHolds(Unflagged(h, o), FreedChunks(h, o));
  }

  /** myfree keeps the invariant on every pointer; what it accepts it removes from the
      blocks, and nothing else. */
  lemma FreeOutcome(h: HeapState, o: int)
    requires h.Valid()
    ensures Free(h, Addr(o)).0.Valid() && Free(h, Addr(o)).0.ready == h.ready
    ensures Free(h, Addr(o)).1 == Rejected ==> Free(h, Addr(o)).0 == h
    ensures Free(h, Addr(o)).1 == Returned ==> Free(h, Addr(o)).0.Blocks() == h.Blocks() - {o / 8 - 1}
  {
    if Accepts(h, o) {
      FreedFacts(h, o);
      FreedHeap(h, o);
      hide Free, FreedChunks, Accepts, HeapState.Chunks, Span, Live, Written, Unflagged;
    }
  }

  /** myfree of the payload start of block `k`. */
  function FreeBlock(h: HeapState, k: nat): (HeapState, FreeResult) {
    Free(h, Addr(8 * (k + 1)))
  }

  lemma LiveIsAccepted(h: HeapState, k: nat)
    requires h.Valid() && k in h.Blocks()
    ensures Accepts(h, 8 * (k + 1)) && k + 1 + h.Blocks()[k] <= WORDS
    ensures k in At(0, h.Chunks()) && At(0, h.Chunks())[k] == Chunk(h.Blocks()[k], true)
  {
    hide At, Live, Decode, Span, Normal, Accepts;
    LiveIsUsed(0, h.Chunks(), k);
    LiveBounds(0, h.Chunks());
    DecodeHolds(h.words, 0);
    assert h.words[k] == Header(At(0, h.Chunks())[k]);
    HeaderIsAccepted(h, k, h.Blocks()[k]);
  }

  lemma HeaderIsAccepted(h: HeapState, k: nat, len: Positive)
    requires k + 1 + len <= WORDS && h.words[k] == 8 * len + 1
    ensures Accepts(h, 8 * (k + 1))
  {
    assert 8 * (k + 1) / 8 - 1 == k;
    hide EndsInside;
    EndsInsideIff(8 * (k + 1), 8 * len);
  }

  /** Every live block is accepted by myfree, and then is live no longer. */
  lemma FreeBlockOutcome(h: HeapState, k: nat)
    requires h.Valid() && k in h.Blocks()
    ensures FreeBlock(h, k).1 == Returned
    ensures FreeBlock(h, k).0.Valid() && FreeBlock(h, k).0.ready
    ensures FreeBlock(h, k).0.Blocks() == h.Blocks() - {k}
  {
    hide Free, FreedChunks, Accepts, HeapState.Valid, HeapState.Blocks, HeapState.Chunks;
    hide Live, Written, At, Span, Unflagged;
    LiveIsAccepted(h, k);
    FreedHeap(h, 8 * (k + 1));
    FreedIsReady(h, 8 * (k + 1));
    FreeOutcome(h, 8 * (k + 1));
  }

  lemma FreedIsReady(h: HeapState, o: int)
    requires h.Valid() && Accepts(h, o)
    ensures h.ready
  {
    ClearFlag(h, o);
  }

  /** The pointer is the start of a live block's payload. */
  predicate NamesBlock(h: HeapState, o: int) {
    exists k <- h.Blocks() :: o == 8 * (k + 1)
  }

  /** The word `v` at position `i` passes for the header of an allocated chunk. */
  predicate Disguise(i: nat, v: Word) {
    i + 1 < WORDS && v % 2 == 1 && v != 1 && EndsInside(8 * (i + 1), v - 1)
  }

  /** It does when it is odd and above 1, and its size either fits or is so large that the
      address of its end wraps around. */
  lemma DisguiseIff(i: nat, v: Word)
    ensures Disguise(i, v) <==>
            && i + 1 < WORDS && v % 2 == 1 && v > 1
            && (8 * (i + 1) + (v - 1) <= MEMLENGTH || TWO_TO_64 <= BASE + 8 * (i + 1) + (v - 1))
  {
    hide EndsInside;
    if i + 1 < WORDS && v > 1 {
      EndsInsideIff(8 * (i + 1), v - 1);
    }
  }

  /** myfree accepts what follows a word that looks like such a header. */
  lemma AcceptsIff(h: HeapState, o: int)
    ensures Accepts(h, o) <==> exists i: nat :: i < WORDS && o == 8 * (i + 1) && Disguise(i, h.words[i])
  {
    if Accepts(h, o) {
      assert Disguise(o / 8 - 1, h.words[o / 8 - 1]);
    }
  }

  /** A pointer that names no block is accepted exactly when it follows such a word: one that
      is odd, above 1, and has a size that fits or that makes the end address wrap. It then
      leaves the chunk list alone, and of memory it changes one flag bit that is no header's. */
  lemma StrayFree(h: HeapState, o: int)
    requires h.Valid() && !NamesBlock(h, o)
    ensures Free(h, Addr(o)).1 == Returned <==>
            exists i: nat :: i < WORDS && o == 8 * (i + 1) && Disguise(i, h.words[i])
    ensures Free(h, Addr(o)).1 == Returned ==>
              Free(h, Addr(o)).0.Chunks() == h.Chunks() && Accepts(h, o) && Free(h, Addr(o)).0.words == Unflagged(h, o)
  {
    hide *;
    AcceptsIff(h, o);
    ReturnsIff(h, o);
    if Accepts(h, o) {
      StrayWord(h, o);
      FreedFacts(h, o);
      FreedHeap(h, o);
      StrayMemory(h, o);
    }
  }

  lemma ReturnsIff(h: HeapState, o: int)
    ensures Free(h, Addr(o)).1 == Returned <==> Accepts(h, o)
  {
    hide Accepts, Unflagged, Decode, Coalesced, Written;
  }

  lemma StrayMemory(h: HeapState, o: int)
    requires h.Valid() && Accepts(h, o) && o / 8 - 1 !in At(0, h.Chunks())
    ensures Written(Unflagged(h, o), h.Chunks()) == Unflagged(h, o)
  {
    ClearFlag(h, o);
    hide Accepts, Unflagged, Decode, At;
    DecodeHolds(Unflagged(h, o), 0);
  }

  lemma StrayWord(h: HeapState, o: int)
    requires h.Valid() && Accepts(h, o) && !NamesBlock(h, o)
    ensures o / 8 - 1 !in At(0, h.Chunks())
  {
    var k: nat := o / 8 - 1;
    assert o == 8 * (k + 1);
    assert k !in h.Blocks();
    ClearFlag(h, o);
    DecodeHolds(h.words, 0);
    LiveIsUsed(0, h.Chunks(), k);
  }

  // ----- every run -----

  lemma StepKeepsValid(h: HeapState, op: Op)
    requires h.Valid() && Enabled(h, op)
    ensures Step(h, op).Valid() && (h.ready ==> Step(h, op).ready)
  {
    match op
    case MallocOp(size) =>
      if size == 0 { MallocZero(h); } else { MallocOutcome(h, size); }
    case FreeOp(p) =>
      if p.Addr? { FreeOutcome(h, p.offset); }
    case StoreOp(i, v) => StoreKeepsHeaders(h, i, v);
  }

  /** In every state of every run the headers tile the arena and no two free chunks are
      adjacent. */
  lemma {:induction false} RunKeepsValid(h: HeapState, ops: seq<Op>)
    requires h.Valid() && Legal(h, ops)
    ensures Run(h, ops).Valid() && (h.ready ==> Run(h, ops).ready)
    decreases |ops|
  {
    if ops != [] {
      StepKeepsValid(h, ops[0]);
      RunKeepsValid(Step(h, ops[0]), ops[1..]);
    }
  }

  /** The coalesce-and-retry of mymalloc never changes the outcome. */
  lemma {:induction false} RetryIsUseless(h: HeapState, n: nat)
    requires h.Valid() && h.ready
    ensures FirstFit(Coalesced(h.Chunks()), n) == FirstFit(h.Chunks(), n)
    ensures Written(h.words, Coalesced(h.Chunks())) == h.words
  {
    CoalescedOfNormal(h.Chunks());
    DecodeHolds(h.words, 0);
  }

  /** Live blocks lie inside the arena and do not overlap, headers included. */
  lemma BlocksDisjoint(h: HeapState, j: nat, k: nat)
    requires h.Valid() && j in h.Blocks() && k in h.Blocks() && j != k
    ensures j + 1 + h.Blocks()[j] <= WORDS
    ensures j + 1 + h.Blocks()[j] <= k || k + 1 + h.Blocks()[k] <= j
  {
    LiveBounds(0, h.Chunks());
    LiveIsUsed(0, h.Chunks(), j);
    LiveIsUsed(0, h.Chunks(), k);
    if j < k {
      Disjoint(0, h.Chunks(), j, k);
    } else {
      Disjoint(0, h.Chunks(), k, j);
    }
  }

  // ----- payloads -----

  lemma {:induction false} WrittenKeepsPayload(w: Memory, cs: Layout, k: nat, i: nat)
    requires k in Live(0, cs) && k < i < k + 1 + Live(0, cs)[k] && i < WORDS
    ensures Written(w, cs)[i] == w[i]
  {
    LiveIsUsed(0, cs, k);
    if i in At(0, cs) {
      Disjoint(0, cs, k, i);
    }
  }

  /** mymalloc changes no word of the payload of a live block. */
  lemma MallocKeepsPayloads(h: HeapState, size: Word, k: nat, i: nat)
    requires h.Valid() && size <= MAX_REQUEST
    requires k in h.Blocks() && k < i < k + 1 + h.Blocks()[k]
    ensures i < WORDS && Malloc(h, size).0.words[i] == h.words[i]
  {
    LiveBounds(0, h.Chunks());
    if size > 0 && Malloc(h, size).1.Some? {
      var cs, n := h.Chunks(), Request(size);
      var j := FirstFit(cs, n).value;
      TakeFacts(0, cs, j, n, Span(cs[..j]));
      TakenIsNew(cs, j);
      WrittenKeepsPayload(h.words, Take(cs, j, n), k, i);
    }
  }

  /** Freeing one live block changes no word of the payload of another. */
  lemma FreeKeepsPayloads(h: HeapState, f: nat, k: nat, i: nat)
    requires h.Valid() && f in h.Blocks() && f != k
    requires k in h.Blocks() && k < i < k + 1 + h.Blocks()[k]
    ensures i < WORDS && FreeBlock(h, f).0.words[i] == h.words[i]
  {
    hide *;
    var o: nat := 8 * (f + 1);
    FreeBlockIs(h, f, o);
    LiveIsAccepted(h, f);
    BlocksDisjoint(h, k, f);
    FreedFacts(h, o);
    FreedHeap(h, o);
    UnflaggedWord(h, o, i);
    WrittenKeepsPayload(Unflagged(h, o), FreedChunks(h, o), k, i);
  }

  lemma UnflaggedWord(h: HeapState, o: int, i: nat)
    requires Accepts(h, o) && i < WORDS && i != o / 8 - 1
    ensures Unflagged(h, o)[i] == h.words[i]
  {
  }

  /** mymalloc writes nothing but headers of the chunks it leaves. */
  lemma MallocWritesHeaders(h: HeapState, size: Word, i: nat)
    requires h.Valid() && 0 < size <= MAX_REQUEST && i < WORDS
    requires i !in At(0, Malloc(h, size).0.Chunks())
    ensures Malloc(h, size).0.words[i] == h.words[i]
  {
    hide Malloc, Initialized, HeapState.Valid, FirstFit, Written, Take, At, Decode, Span, Request;
    var g := Initialized(h);
    InitializedFacts(h);
    MallocOutcome(h, size);
    StartIsHeader(Malloc(h, size).0);
    InitialWord(h, i);
    MallocCases(h, g, size);
    if FirstFit(g.Chunks(), Request(size)).Some? {
      TakenBlock(h, size);
      TakenSpan(h, size);
      WrittenMeans(g.words, Take(g.Chunks(), FirstFit(g.Chunks(), Request(size)).value, Request(size)), i);
    }
  }

  lemma TakenSpan(h: HeapState, size: Word)
    requires h.Valid() && 0 < size <= MAX_REQUEST && FirstFit(Initialized(h).Chunks(), Request(size)).Some?
    ensures Span(Take(Initialized(h).Chunks(), FirstFit(Initialized(h).Chunks(), Request(size)).value, Request(size)))
            == WORDS
  {
    hide Malloc, Initialized, FirstFit, Take, Decode, Request;
    TakenBlock(h, size);
  }

  lemma InitialWord(h: HeapState, i: nat)
    requires i < WORDS && i > 0
    ensures Initialized(h).words[i] == h.words[i]
  {
  }

  /** The first word is always a header. */
  lemma StartIsHeader(h: HeapState)
    requires h.Valid() && h.ready
    ensures 0 in At(0, h.Chunks())
  {
  }

  /** myfree of a live block writes nothing but that block's header and those of the chunks it
      leaves. */
  lemma FreeWritesHeaders(h: HeapState, k: nat, i: nat)
    requires h.Valid() && k in h.Blocks() && i < WORDS && i != k
    requires i !in At(0, FreeBlock(h, k).0.Chunks())
    ensures FreeBlock(h, k).0.words[i] == h.words[i]
  {
    hide *;
    var o: nat := 8 * (k + 1);
    FreeBlockIs(h, k, o);
    LiveIsAccepted(h, k);
    FreedFacts(h, o);
    FreedHeap(h, o);
    UnflaggedWord(h, o, i);
    WrittenMeans(Unflagged(h, o), FreedChunks(h, o), i);
  }

  // ----- canonical heaps -----

  /** The chunk list is a function of the set of live blocks. */
  lemma CanonicalHeaps(a: HeapState, b: HeapState)
    requires a.Valid() && b.Valid() && a.ready && b.ready && a.Blocks() == b.Blocks()
    ensures a.Chunks() == b.Chunks()
  {
    Canonical(0, a.Chunks(), b.Chunks());
  }

  /** Two runs of the program that end with the same live blocks, however they got there,
      end with the same chunk list. */
  lemma {:induction false} RunsAreCanonical(p: seq<Op>, q: seq<Op>)
    requires Legal(START, p) && Legal(START, q)
    requires Run(START, p).ready && Run(START, q).ready
    requires Run(START, p).Blocks() == Run(START, q).Blocks()
    ensures Run(START, p).Chunks() == Run(START, q).Chunks()
  {
    RunKeepsValid(START, p);
    RunKeepsValid(START, q);
    CanonicalHeaps(Run(START, p), Run(START, q));
  }

  /** mymalloc followed at once by myfree of its result restores the chunk list. */
  lemma MallocThenFree(h: HeapState, size: Word)
    requires h.Valid() && 0 < size <= MAX_REQUEST && Malloc(h, size).1.Some?
    ensures var (g, p) := Malloc(h, size);
            && Free(g, Addr(p.value)).1 == Returned
            && Free(g, Addr(p.value)).0.Chunks() == Initialized(h).Chunks()
  {
    hide *;
    InitializedFacts(h);
    MallocOutcome(h, size);
    var (g, p) := Malloc(h, size);
    var k: nat := p.value / 8 - 1;
    FreeBlockIs(g, k, p.value);
    FreeBlockOutcome(g, k);
    assert g.Blocks() - {k} == h.Blocks();
    CanonicalHeaps(FreeBlock(g, k).0, Initialized(h));
  }

  lemma FreeBlockIs(h: HeapState, k: nat, o: int)
    requires o == 8 * (k + 1)
    ensures FreeBlock(h, k) == Free(h, Addr(o))
  {
  }

  /** The frees of two different blocks commute. */
  lemma FreesCommute(h: HeapState, j: nat, k: nat)
    requires h.Valid() && j in h.Blocks() && k in h.Blocks() && j != k
    ensures var (a, ra) := FreeBlock(h, j); var (ab, rab) := FreeBlock(a, k);
            var (b, rb) := FreeBlock(h, k); var (ba, rba) := FreeBlock(b, j);
            && ra == rb == rab == rba == Returned
            && ab.Chunks() == ba.Chunks()
  {
    hide *;
    FreeBlockOutcome(h, j);
    FreeBlockOutcome(h, k);
    var a, b := FreeBlock(h, j).0, FreeBlock(h, k).0;
    FreeBlockOutcome(a, k);
    FreeBlockOutcome(b, j);
    assert h.Blocks() - {j} - {k} == h.Blocks() - {k} - {j};
    CanonicalHeaps(FreeBlock(a, k).0, FreeBlock(b, j).0);
  }

  function FreeEach(h: HeapState, ks: seq<nat>): HeapState
    decreases |ks|
  {
    if ks == [] then h else FreeEach(FreeBlock(h, ks[0]).0, ks[1..])
  }

  /** Freeing all the live blocks, each once and in any order, gives back one free chunk of
      4088 bytes. */
  lemma {:induction false} FreeAllRestores(h: HeapState, ks: seq<nat>)
    requires h.Valid() && h.ready
    requires forall k :: k in h.Blocks() <==> k in ks
    requires forall i, j :: 0 <= i < j < |ks| ==> ks[i] != ks[j]
    ensures FreeEach(h, ks).Chunks() == [Chunk(WORDS - 1, false)]
    decreases |ks|
  {
    if ks == [] {
      OnlyEmptyHeap(h);
    } else {
      assert ks[0] in h.Blocks();
      FreeBlockOutcome(h, ks[0]);
      hide HeapState.Valid, HeapState.Blocks, FreeBlock;
      FreeAllRestores(FreeBlock(h, ks[0]).0, ks[1..]);
    }
  }

  lemma OnlyEmptyHeap(h: HeapState)
    requires h.Valid() && h.ready && forall k :: k !in h.Blocks()
    ensures h.Chunks() == [Chunk(WORDS - 1, false)]
  {
    assert START.Valid();
    InitializedFacts(START);
    assert h.Blocks() == START.Blocks();
    hide HeapState.Valid, HeapState.Blocks, HeapState.Chunks, Initialized;
    CanonicalHeaps(h, Initialized(START));
  }

  // ----- when a request succeeds -----

  /** With k live blocks and F free payload bytes, a request that rounds up to `a` bytes
      succeeds whenever F > (k + 1) * (a - 8). */
  lemma SuccessBound(h: HeapState, size: Word)
    requires h.Valid() && 0 < size <= MAX_REQUEST
    requires 8 * FreeWords(Initialized(h).Chunks()) > (|h.Blocks()| + 1) * (Aligned(size) - 8)
    ensures Malloc(h, size).1.Some?
  {
    InitializedFacts(h);
    RequestFacts(size);
    var cs, n := Initialized(h).Chunks(), Request(size);
    if FirstFit(cs, n).None? {
      FewFreeChunks(cs);
      UsedChunksIsLive(0, cs);
      SmallFreeChunks(cs, n);
      MulMonotone(FreeChunks(cs), |h.Blocks()| + 1, n - 1);
    }
  }

  lemma MulMonotone(a: nat, b: nat, c: nat)
    requires a <= b
    ensures a * c <= b * c && 8 * (b * c) == b * (8 * c)
  {
  }

  // ----- double free -----

  /** The word is in a free chunk and its flag bit is clear. */
  ghost predicate Quiet(h: HeapState, k: nat) {
    k < WORDS && h.ready && FreeCell(0, h.Chunks(), k) && h.words[k] % 2 == 0
  }

  lemma {:induction false} WrittenKeepsQuiet(w: Memory, cs: Layout, k: nat)
    requires Span(cs) == WORDS && k < WORDS && FreeCell(0, cs, k) && w[k] % 2 == 0
    ensures Quiet(HeapState(Written(w, cs), true), k)
  {
    WrittenHolds(w, cs);
    WrittenIsEven(w, cs, k);
    hide FreeCell, Span, Decode, Written;
  }

  lemma {:induction false} WrittenIsEven(w: Memory, cs: Layout, k: nat)
    requires k < WORDS && FreeCell(0, cs, k) && w[k] % 2 == 0
    ensures Written(w, cs)[k] % 2 == 0
  {
    hide FreeCell, At;
    if k in At(0, cs) {
      FreeHeader(cs, k);
    }
  }

  lemma {:induction false} FreeHeader(cs: Layout, k: nat)
    requires FreeCell(0, cs, k) && k in At(0, cs)
    ensures !At(0, cs)[k].used
  {
    FreeCellIffNotLive(0, cs, k);
    LiveIsUsed(0, cs, k);
  }

  /** Some step of the run hands out a chunk that covers word `k`. */
  predicate Covers(h: HeapState, ops: seq<Op>, k: nat)
    requires Legal(h, ops)
    decreases |ops|
  {
    && ops != []
    && (CoversNow(h, ops[0], k) || Covers(Step(h, ops[0]), ops[1..], k))
  }

  predicate CoversNow(h: HeapState, op: Op, k: nat)
    requires Enabled(h, op)
  {
    && op.MallocOp?
    && Malloc(h, op.size).1.Some?
    && var c := Malloc(h, op.size).1.value / 8 - 1;
    && c in Step(h, op).Blocks()
    && c <= k < c + 1 + Step(h, op).Blocks()[c]
  }

  lemma MallocKeepsQuiet(h: HeapState, size: Word, k: nat)
    requires h.Valid() && 0 < size <= MAX_REQUEST && Quiet(h, k) && !CoversNow(h, MallocOp(size), k)
    ensures Quiet(Malloc(h, size).0, k)
  {
    MallocOutcome(h, size);
    MallocCases(h, h, size);
    var cs, n := h.Chunks(), Request(size);
    var r := FirstFit(cs, n);
    if r.Some? {
      var t := Take(cs, r.value, n);
      TakenBlock(h, size);
      hide Malloc, Take, HeapState.Chunks, FreeCell, FirstFit, Live, Span, Written;
      assert Live(0, t) == Malloc(h, size).0.Blocks();
      ShrinkFreeCell(cs, t, k, Malloc(h, size).1.value / 8 - 1);
      WrittenKeepsQuiet(h.words, t, k);
    }
  }

  /** A free cell stays free when the one new block does not cover it. */
  lemma {:induction false} ShrinkFreeCell(cs: Layout, t: Layout, k: nat, c: int)
    requires FreeCell(0, cs, k) && Span(t) == Span(cs)
    requires forall j <- Live(0, t) :: (j == c && !(j <= k < j + 1 + Live(0, t)[j])) ||
                                      (j in Live(0, cs) && Live(0, cs)[j] == Live(0, t)[j])
    ensures FreeCell(0, t, k)
  {
    FreeCellIffNotLive(0, cs, k);
    forall j <- Live(0, t) ensures !(j <= k < j + 1 + Live(0, t)[j]) {
      assert j in Live(0, cs) ==> !(j <= k < j + 1 + Live(0, cs)[j]);
      assert (j == c && !(j <= k < j + 1 + Live(0, t)[j])) || (j in Live(0, cs) && Live(0, cs)[j] == Live(0, t)[j]);
    }
    FreeCellIffNotLive(0, t, k);
  }

  lemma FreeKeepsQuiet(h: HeapState, o: int, k: nat)
    requires h.Valid() && Quiet(h, k)
    ensures Quiet(Free(h, Addr(o)).0, k)
  {
    if Accepts(h, o) {
      FreedFacts(h, o);
      FreedHeap(h, o);
      hide Free, FreedChunks, HeapState.Chunks, FreeCell, Live, Span, Written;
      ShrinkFreeCell(h.Chunks(), FreedChunks(h, o), k, -1);
      WrittenKeepsQuiet(Unflagged(h, o), FreedChunks(h, o), k);
    }
  }

  lemma StepKeepsQuiet(h: HeapState, op: Op, k: nat)
    requires h.Valid() && Enabled(h, op) && Quiet(h, k) && !CoversNow(h, op, k)
    ensures Quiet(Step(h, op), k)
  {
    match op
    case MallocOp(size) =>
      if size > 0 { MallocKeepsQuiet(h, size, k); }
    case FreeOp(p) =>
      if p.Addr? { FreeKeepsQuiet(h, p.offset, k); }
    case StoreOp(i, v) =>
      StoreKeepsHeaders(h, i, v);
      FreeCellIffNotLive(0, h.Chunks(), k);
      var j :| j in h.Blocks() && j < i < j + 1 + h.Blocks()[j];
      assert !(j <= k < j + 1 + Live(0, h.Chunks())[j]);
  }

  lemma {:induction false} RunKeepsQuiet(h: HeapState, ops: seq<Op>, k: nat)
    requires h.Valid() && Legal(h, ops) && Quiet(h, k) && !Covers(h, ops, k)
    ensures Quiet(Run(h, ops), k)
    decreases |ops|
  {
    if ops != [] {
      StepKeepsQuiet(h, ops[0], k);
      StepKeepsValid(h, ops[0]);
      RunKeepsQuiet(Step(h, ops[0]), ops[1..], k);
    }
  }

  lemma FreedIsQuiet(h: HeapState, k: nat)
    requires h.Valid() && k in h.Blocks()
    ensures Quiet(FreeBlock(h, k).0, k)
  {
    var o := 8 * (k + 1);
    hide Free, FreedChunks, HeapState.Valid, HeapState.Chunks, FreeCell, Live, Span, Written;
    LiveIsAccepted(h, k);
    FreedFacts(h, o);
    FreedHeap(h, o);
    var t := FreedChunks(h, o);
    LiveBounds(0, t);
    FreeCellIffNotLive(0, t, k);
    forall j <- Live(0, t) ensures !(j <= k < j + 1 + Live(0, t)[j]) {
      BlocksDisjoint(h, j, k);
    }
    WrittenKeepsQuiet(Unflagged(h, o), t, k);
  }

  /** Double free is caught: after a block has been freed, a second myfree of the same
      pointer is rejected in every later state, as long as no mymalloc in between has handed
      out a chunk that covers the old header. */
  lemma {:induction false} DoubleFreeCaught(h: HeapState, k: nat, ops: seq<Op>)
    requires h.Valid() && k in h.Blocks()
    requires Legal(FreeBlock(h, k).0, ops) && !Covers(FreeBlock(h, k).0, ops, k)
    ensures var g := Run(FreeBlock(h, k).0, ops);
            FreeBlock(g, k) == (g, Rejected)
  {
    FreeBlockOutcome(h, k);
    FreedIsQuiet(h, k);
    var g := FreeBlock(h, k).0;
    RunKeepsQuiet(g, ops, k);
    QuietIsRejected(Run(g, ops), k);
    hide *;
  }

  lemma QuietIsRejected(h: HeapState, k: nat)
    requires Quiet(h, k)
    ensures FreeBlock(h, k) == (h, Rejected)
  {
  }
}
