/** The allocator as a function of raw memory: every operation maps 512 words to 512
    words, and the chunk list is what the headers decode to. The class in Heap.dfy is proved
    to compute these functions; the whole-run theorems are in HeapTheorems.dfy. */
module HeapSpec {
  import opened Options
  import opened HeapLayout

  /** The contents of the arena. */
  type Memory = w: seq<Word> | |w| == WORDS witness seq(WORDS, i => 0)

  const MEMLENGTH: nat := 4096

  const TWO_TO_64: nat := 0x1_0000_0000_0000_0000

  /** The addresses where the arena can lie: aligned, and with all of it below 2^64. */
  type Address = a: int | 0 < a && a % 8 == 0 && a + MEMLENGTH < TWO_TO_64 witness 8

  /** Where it does lie; nothing else is known of it. */
  const BASE: Address

  /** The largest request whose rounding does not wrap around. */
  const MAX_REQUEST: nat := 0x1_0000_0000_0000_0000 - 8

  // ----- decoding headers -----

  /** The chunks that the headers from word `p` on describe, as a cursor loop meets them. */
  function Decode(w: seq<Word>, p: nat): Layout
    decreases |w| - p
  {
    if |w| <= p then []
    else
      var size := w[p] - w[p] % 2;
      if size == 0 || size % 8 != 0 || |w| < p + 1 + size / 8 then []
      else [Chunk(size / 8, w[p] % 2 == 1)] + Decode(w, p + 1 + size / 8)
  }

  /** Every header of the map is in memory. */
  ghost predicate Holds(w: seq<Word>, m: map<nat, Chunk>) {
    forall k <- m :: k < |w| && w[k] == Header(m[k])
  }

  /** Memory with the headers of `cs` written into it and every other word unchanged. */
  function Written(w: Memory, cs: Layout): Memory {
    var m := At(0, cs);
    seq(WORDS, i requires 0 <= i < WORDS => if i in m && m[i].len < WORDS then Header(m[i]) else w[i])
  }

  lemma {:induction false} DecodeHolds(w: seq<Word>, p: nat)
    ensures Holds(w, At(p, Decode(w, p)))
    decreases |w| - p
  {
    var cs := Decode(w, p);
    if cs != [] {
      DecodeHolds(w, p + 1 + cs[0].len);
      assert cs[1..] == Decode(w, p + 1 + cs[0].len);
    }
  }

  lemma DecodeHead(w: seq<Word>, p: nat, c: Chunk)
    requires p + 1 + c.len <= |w| && w[p] == Header(c)
    ensures Decode(w, p) == [c] + Decode(w, p + 1 + c.len)
  {
    hide Header;
    HeaderFields(c);
    assert 8 * c.len / 8 == c.len;
  }

  lemma {:induction false} DecodeEnd(w: seq<Word>, p: nat)
    requires |w| <= p
    ensures Decode(w, p) == []
  {
  }

  /** The decoding is the only chunk list that memory holds. */
  lemma {:induction false} DecodeUnique(w: seq<Word>, p: nat, cs: Layout)
    requires Holds(w, At(p, cs)) && p + Span(cs) == |w|
    ensures Decode(w, p) == cs
    decreases |cs|
  {
    hide Decode, Header;
    if cs != [] {
      var q := p + 1 + cs[0].len;
      assert At(p, cs)[p] == cs[0];
      assert w[p] == Header(cs[0]);
      forall k <- At(q, cs[1..]) ensures k < |w| && w[k] == Header(At(q, cs[1..])[k]) {
        assert At(p, cs)[k] == At(q, cs[1..])[k];
      }
      DecodeUnique(w, q, cs[1..]);
      DecodeHead(w, p, cs[0]);
    } else {
      DecodeEnd(w, p);
    }
  }

  /** Each header is written, and no other word. */
  lemma {:induction false} WrittenMeans(w: Memory, cs: Layout, i: nat)
    requires Span(cs) == WORDS && i < WORDS
    ensures i in At(0, cs) ==> Written(w, cs)[i] == Header(At(0, cs)[i])
    ensures i !in At(0, cs) ==> Written(w, cs)[i] == w[i]
  {
  }

  lemma {:induction false} WrittenHolds(w: Memory, cs: Layout)
    requires Span(cs) == WORDS
    ensures Holds(Written(w, cs), At(0, cs))
    ensures Decode(Written(w, cs), 0) == cs
  {
    DecodeUnique(Written(w, cs), 0, cs);
  }

  // ----- states -----

  datatype HeapState = HeapState(words: Memory, ready: bool) {
    function Chunks(): Layout {
      Decode(words, 0)
    }

    /** The invariant of the allocator: the decoded headers tile the arena exactly and no
        two adjacent chunks are free. Before the first malloc the arena is all zero. */
    ghost predicate Valid() {
      if ready then Span(Chunks()) == WORDS && Normal(Chunks())
      else forall i :: 0 <= i < WORDS ==> words[i] == 0
    }

    /** The live blocks: header position to payload length, in words. */
    function Blocks(): map<nat, Positive> {
      if ready then Live(0, Chunks()) else map[]
    }
  }

  /** The static arena before any call. */
  const START: HeapState := HeapState(seq(WORDS, i => 0), false)

  /** init_heap: one free chunk. */
  function Initialized(h: HeapState): HeapState {
    if h.ready then h else HeapState(h.words[0 := 8 * (WORDS - 1)], true)
  }

  lemma InitializedFacts(h: HeapState)
    requires h.Valid()
    ensures Initialized(h).Valid() && Initialized(h).ready && Initialized(h).Blocks() == h.Blocks()
    ensures !h.ready ==> Initialized(h).Chunks() == [Chunk(WORDS - 1, false)]
  {
    if !h.ready {
      var cs := [Chunk(WORDS - 1, false)];
      AtSingle(0, cs[0]);
      LiveCons(0, cs[0], []);
      assert [cs[0]] + [] == cs;
      DecodeUnique(Initialized(h).words, 0, cs);
    }
  }

  /** `(size + 7) & ~7` in 64-bit arithmetic. */
  function Aligned(size: Word): Word {
    var s := (size + 7) % 0x1_0000_0000_0000_0000;
    s - s % 8
  }

  /** Rounding is exact up to MAX_REQUEST; beyond, it wraps around to zero. */
  lemma AlignedFacts(size: Word)
    ensures size <= MAX_REQUEST ==> Aligned(size) % 8 == 0 && size <= Aligned(size) <= size + 7
    ensures Aligned(size) == 0 <==> size == 0 || MAX_REQUEST < size
  {
  }

  // ----- operations -----

  /** The rounded request in words. */
  function Request(size: Word): Positive
    requires 0 < size <= MAX_REQUEST
  {
    AlignedFacts(size);
    Aligned(size) / 8
  }

  lemma RequestFacts(size: Word)
    requires 0 < size <= MAX_REQUEST
    ensures Aligned(size) == 8 * Request(size) && size <= 8 * Request(size) <= size + 7
  {
    AlignedFacts(size);
  }

  /** mymalloc: NULL (None) or the byte offset of the payload. */
  function Malloc(h: HeapState, size: Word): (HeapState, Option<nat>)
    requires size <= MAX_REQUEST
  {
    var g := Initialized(h);
    if size == 0 then (g, None)
    else match FirstFit(g.Chunks(), Request(size))
      case None => (g, None)
      case Some(i) =>
        (HeapState(Written(g.words, Take(g.Chunks(), i, Request(size))), true),
         Some(8 * (Span(g.Chunks()[..i]) + 1)))
  }

  /** The outcome of mymalloc in terms of the one search. */
  lemma MallocCases(h: HeapState, g: HeapState, size: Word)
    requires 0 < size <= MAX_REQUEST && g == Initialized(h)
    ensures FirstFit(g.Chunks(), Request(size)).None? ==> Malloc(h, size) == (g, None)
    ensures FirstFit(g.Chunks(), Request(size)).Some? ==>
              var i := FirstFit(g.Chunks(), Request(size)).value;
              Malloc(h, size) == (HeapState(Written(g.words, Take(g.Chunks(), i, Request(size))), true),
                                  Some(8 * (Span(g.Chunks()[..i]) + 1)))
  {
  }

  datatype Pointer = Null | Addr(offset: int)
  datatype FreeResult = Returned | Rejected

  /** valid_ptr: inside the arena and 8-aligned. */
  predicate InArena(offset: int) {
    0 <= offset < MEMLENGTH && offset % 8 == 0
  }

  /** Whether `size` bytes from an offset on end inside the arena, as the code tells it: by
      comparing addresses, whose sum is taken modulo 2^64. */
  predicate EndsInside(offset: int, size: int) {
    (BASE + offset + size) % TWO_TO_64 <= BASE + MEMLENGTH
  }

  /** The comparison is right up to the point where the sum wraps around; from there on it
      always holds. */
  lemma EndsInsideIff(offset: int, size: int)
    requires 0 <= offset <= MEMLENGTH && 0 <= size < TWO_TO_64
    ensures EndsInside(offset, size) <==> offset + size <= MEMLENGTH || TWO_TO_64 <= BASE + offset + size
  {
    var sum := BASE + offset + size;
    if TWO_TO_64 <= sum {
      WrapsOnce(sum);
    } else {
      assert sum % TWO_TO_64 == sum;
    }
  }

  lemma WrapsOnce(sum: int)
    requires TWO_TO_64 <= sum < 2 * TWO_TO_64
    ensures sum % TWO_TO_64 == sum - TWO_TO_64
  {
  }

  /** The tests of myfree before it touches memory. */
  predicate Accepts(h: HeapState, offset: int) {
    && InArena(offset)
    && InArena(offset - 8)
    && var w := h.words[offset / 8 - 1];
    && w % 2 == 1
    && w - 1 != 0
    && EndsInside(offset, w - 1)
  }

  /** Memory after the flag of the word before an accepted pointer has been cleared. */
  function Unflagged(h: HeapState, offset: int): Memory
    requires Accepts(h, offset)
  {
    h.words[offset / 8 - 1 := h.words[offset / 8 - 1] - 1]
  }

  /** myfree: the flag of the word before the pointer is cleared and the heap coalesced. */
  function Free(h: HeapState, p: Pointer): (HeapState, FreeResult) {
    match p
    case Null => (h, Returned)
    case Addr(o) =>
      if !Accepts(h, o) then (h, Rejected)
      else (h.(words := Written(Unflagged(h, o), Coalesced(Decode(Unflagged(h, o), 0)))), Returned)
  }

  /** Clearing a set flag bit either marks a chunk free or touches no header at all. */
  lemma ClearFlag(h: HeapState, o: int)
    requires h.Valid() && Accepts(h, o)
    ensures h.ready
    ensures Decode(Unflagged(h, o), 0) ==
            if o / 8 - 1 in At(0, h.Chunks()) then MarkFree(h.Chunks(), o / 8 - 1) else h.Chunks()
    ensures Span(Decode(Unflagged(h, o), 0)) == WORDS
  {
    hide Decode, Normal, At, Span, Holds, MarkFree;
    var k, w := o / 8 - 1, Unflagged(h, o);
    AcceptedIsReady(h, o);
    DecodeHolds(h.words, 0);
    if k in At(0, h.Chunks()) {
      MarkFreeFacts(h.Chunks(), k);
      FlagOfHeader(h.words, w, h.Chunks(), k);
      DecodeUnique(w, 0, MarkFree(h.Chunks(), k));
    } else {
      FlagElsewhere(h.words, w, At(0, h.Chunks()), k);
      DecodeUnique(w, 0, h.Chunks());
    }
  }

  lemma AcceptedIsReady(h: HeapState, o: int)
    requires h.Valid() && Accepts(h, o)
    ensures h.ready
  {
    hide Decode;
    assert h.words[o / 8 - 1] != 0;
  }

  lemma {:induction false} FlagOfHeader(was: Memory, w: Memory, cs: Layout, k: nat)
    requires Holds(was, At(0, cs)) && k in At(0, cs) && k < WORDS && was[k] % 2 == 1 && w == was[k := was[k] - 1]
    requires At(0, MarkFree(cs, k)) == At(0, cs)[k := Chunk(At(0, cs)[k].len, false)]
    ensures Holds(w, At(0, MarkFree(cs, k)))
  {
    hide At, MarkFree;
  }

  lemma FlagElsewhere(was: Memory, w: Memory, m: map<nat, Chunk>, k: nat)
    requires Holds(was, m) && k !in m && k < WORDS && was[k] > 0 && w == was[k := was[k] - 1]
    ensures Holds(w, m)
  {
  }

  /** Word `i` is in the payload of a live block. */
  predicate InPayload(h: HeapState, i: nat) {
    exists k <- h.Blocks() :: k < i < k + 1 + h.Blocks()[k]
  }

  /** A program's store of one word. */
  function Store(h: HeapState, i: nat, v: Word): HeapState
    requires i < WORDS
  {
    h.(words := h.words[i := v])
  }

  lemma StoreKeepsHeaders(h: HeapState, i: nat, v: Word)
    requires h.Valid() && InPayload(h, i)
    ensures i < WORDS && Store(h, i, v).Chunks() == h.Chunks() && Store(h, i, v).Valid()
  {
    var k :| k in h.Blocks() && k < i < k + 1 + h.Blocks()[k];
    LiveIsUsed(0, h.Chunks(), k);
    DecodeHolds(h.words, 0);
    if i in At(0, h.Chunks()) {
      Disjoint(0, h.Chunks(), k, i);
    }
    DecodeUnique(h.words[i := v], 0, h.Chunks());
  }
}
