/** mymalloc.c as it is written: cursor loops over raw header words in one arena that is
    updated in place. Addresses are byte offsets from the start of the arena. */
module Heap {
  import opened Options
  import opened HeapLayout
  import opened HeapSpec

  const HEADER_SIZE: nat := 8
  const MIN_CHUNK_SIZE: nat := 16

  // ----- chunk lists by index, as the cursor loops see them -----

  /** The header position of chunk `i`. */
  function Start(cs: Layout, i: nat): nat
    requires i <= |cs|
  {
    if i == 0 then 0 else Start(cs, i - 1) + 1 + cs[i - 1].len
  }

  lemma {:induction false} StartIsSpan(cs: Layout, i: nat)
    requires i <= |cs|
    ensures Start(cs, i) == Span(cs[..i])
  {
    if i > 0 {
      StartIsSpan(cs, i - 1);
      assert cs[..i] == cs[..i - 1] + [cs[i - 1]];
      SpanAppend(cs[..i - 1], [cs[i - 1]]);
      AtSingle(0, cs[i - 1]);
    }
  }

  lemma {:induction false} StartOrder(cs: Layout, i: nat, j: nat)
    requires i < j <= |cs|
    ensures Start(cs, i) + 1 + cs[i].len <= Start(cs, j)
    decreases j
  {
    if i + 1 < j {
      StartOrder(cs, i, j - 1);
    }
  }

  /** Memory holds exactly the headers of `cs`, which cover the arena. */
  ghost predicate Lays(w: Memory, cs: Layout) {
    && WORDS == Start(cs, |cs|)
    && forall i :: 0 <= i < |cs| ==> HasHeader(w, cs, i)
  }

  ghost predicate HasHeader(w: Memory, cs: Layout, i: nat)
    requires i < |cs|
  {
    Start(cs, i) < WORDS && w[Start(cs, i)] == Header(cs[i])
  }

  ghost predicate IsStart(cs: Layout, k: nat) {
    exists i :: 0 <= i < |cs| && StartsAt(cs, i, k)
  }

  ghost predicate StartsAt(cs: Layout, i: nat, k: nat)
    requires i <= |cs|
  {
    Start(cs, i) == k
  }

  lemma {:induction false} IsStartIsAt(cs: Layout, k: nat)
    ensures IsStart(cs, k) <==> k in At(0, cs)
  {
    if k in At(0, cs) {
      StartIsSpan(cs, IndexOf(0, cs, k));
      assert StartsAt(cs, IndexOf(0, cs, k), k);
    }
    if i :| 0 <= i < |cs| && StartsAt(cs, i, k) {
      StartIsSpan(cs, i);
      HeaderAt(0, cs, i);
    }
  }

  lemma {:induction false} LaysDecode(w: Memory)
    requires WORDS == Span(Decode(w, 0))
    ensures Lays(w, Decode(w, 0))
  {
    var cs := Decode(w, 0);
    DecodeHolds(w, 0);
    assert cs[..|cs|] == cs;
    StartIsSpan(cs, |cs|);
    forall i | 0 <= i < |cs| ensures HasHeader(w, cs, i) {
      StartIsSpan(cs, i);
      HeaderAt(0, cs, i);
    }
  }

  lemma {:induction false} LaysHolds(w: Memory, cs: Layout)
    requires Lays(w, cs)
    ensures Span(cs) == WORDS && Holds(w, At(0, cs)) && Decode(w, 0) == cs
  {
    assert cs[..|cs|] == cs;
    StartIsSpan(cs, |cs|);
    forall k <- At(0, cs) ensures k < WORDS && w[k] == Header(At(0, cs)[k]) {
      StartIsSpan(cs, IndexOf(0, cs, k));
      assert HasHeader(w, cs, IndexOf(0, cs, k));
    }
    DecodeUnique(w, 0, cs);
  }

  /** What makes a memory the old one with the headers of `cs` written. */
  lemma {:induction false} WrittenIs(was: Memory, now: Memory, cs: Layout)
    requires Lays(now, cs)
    requires forall k :: 0 <= k < WORDS && !IsStart(cs, k) ==> now[k] == was[k]
    ensures Span(cs) == WORDS && now == Written(was, cs)
  {
    LaysHolds(now, cs);
    forall k | 0 <= k < WORDS ensures now[k] == Written(was, cs)[k] {
      IsStartIsAt(cs, k);
    }
  }

  /** Chunk `i` at byte offset `curr`: what the loop reads there, and where it goes next. */
  lemma CursorStep(w: Memory, cs: Layout, i: nat, curr: int)
    requires Lays(w, cs) && i <= |cs| && curr == 8 * Start(cs, i)
    ensures curr / 8 == Start(cs, i)
    ensures i < |cs| <==> curr < MEMLENGTH
    ensures i < |cs| ==> w[curr / 8] == Header(cs[i]) && w[curr / 8] - w[curr / 8] % 2 == 8 * cs[i].len
    ensures i < |cs| ==> curr + 8 + 8 * cs[i].len == 8 * Start(cs, i + 1) <= MEMLENGTH
  {
    if i < |cs| {
      assert HasHeader(w, cs, i);
      StartOrder(cs, i, |cs|);
    }
  }

  // ----- merging -----

  /** The list after the free chunk `i` has swallowed its free successor. */
  function Merged(cs: Layout, i: nat): (m: Layout)
    requires i + 1 < |cs|
    ensures |m| == |cs| - 1
  {
    cs[..i] + [Chunk(cs[i].len + 1 + cs[i + 1].len, false)] + cs[i + 2..]
  }

  lemma {:induction false} MergedStart(cs: Layout, i: nat, j: nat)
    requires i + 1 < |cs| && j < |cs|
    ensures Start(Merged(cs, i), j) == if j <= i then Start(cs, j) else Start(cs, j + 1)
    decreases j
  {
    if j > 0 {
      MergedStart(cs, i, j - 1);
    }
  }

  /** Overwriting one header merges two chunks and touches no other header. */
  lemma MergeStep(w: Memory, cs: Layout, i: nat, x: Word)
    requires Lays(w, cs) && i + 1 < |cs|
    requires x == 8 * (cs[i].len + 1 + cs[i + 1].len)
    ensures Start(cs, i) < WORDS && Lays(w[Start(cs, i) := x], Merged(cs, i))
    ensures Start(Merged(cs, i), i) == Start(cs, i)
  {
    var m := Merged(cs, i);
    MergedStart(cs, i, |m|);
    MergedStart(cs, i, i);
    assert HasHeader(w, cs, i);
    var w' := w[Start(cs, i) := x];
    forall j | 0 <= j < |m| ensures HasHeader(w', m, j) {
      MergedStart(cs, i, j);
      if j < i {
        StartOrder(cs, j, i);
        assert HasHeader(w, cs, j);
      } else if i < j {
        StartOrder(cs, i, j + 1);
        assert HasHeader(w, cs, j + 1);
      }
    }
  }

  /** While the loop runs: words behind the cursor chunk, and words that hold no header,
      are as they were. */
  ghost predicate Kept(was: Memory, w: Memory, cs: Layout, cursor: nat) {
    forall k :: 0 <= k < WORDS && (!IsStart(cs, k) || cursor < k) ==> w[k] == was[k]
  }

  /** The only header that goes is the swallowed one, and it has not been written. */
  lemma {:induction false} MergeKept(was: Memory, w: Memory, cs: Layout, i: nat, h: nat, x: Word)
    requires i + 1 < |cs| && h == Start(cs, i) < WORDS && Kept(was, w, cs, h)
    ensures Kept(was, w[h := x], Merged(cs, i), h)
  {
    var m := Merged(cs, i);
    MergedStart(cs, i, i);
    assert StartsAt(m, i, h);
    forall k | 0 <= k < WORDS && !IsStart(m, k) ensures w[k] == was[k] {
      if IsStart(cs, k) {
        MergedIsStart(cs, i, k);
      }
    }
  }

  lemma {:induction false} MergedIsStart(cs: Layout, i: nat, k: nat)
    requires i + 1 < |cs| && IsStart(cs, k)
    ensures k == Start(cs, i) + 1 + cs[i].len || IsStart(Merged(cs, i), k)
  {
    var j :| 0 <= j < |cs| && StartsAt(cs, j, k);
    if j <= i {
      MergedStart(cs, i, j);
      assert StartsAt(Merged(cs, i), j, k);
    } else if i + 1 < j {
      MergedStart(cs, i, j - 1);
      assert StartsAt(Merged(cs, i), j - 1, k);
    }
  }

  /** The coalesce loop at chunk `i` of `cs`, having started on the memory `w0` that held
      `was`: what lies before the cursor is final, what lies behind it is untouched. */
  ghost predicate Coalescing(w0: Memory, was: Layout, w: Memory, cs: Layout, i: nat) {
    && Lays(w, cs) && i <= |cs|
    && Coalesced(was) == cs[..i] + Coalesced(cs[i..])
    && Kept(w0, w, cs, Start(cs, i))
  }

  lemma {:induction false} CoalescingStarts(w0: Memory, was: Layout)
    requires Lays(w0, was)
    ensures Coalescing(w0, was, w0, was, 0) && Start(was, 0) == 0
  {
    assert was[0..] == was;
  }

  lemma CoalescingCursor(w0: Memory, was: Layout, w: Memory, cs: Layout, i: nat, curr: int)
    requires Coalescing(w0, was, w, cs, i) && curr == 8 * Start(cs, i)
    ensures Lays(w, cs) && i <= |cs| && (i < |cs| <==> curr < MEMLENGTH) && curr / 8 == Start(cs, i)
    ensures i < |cs| ==> w[curr / 8] % 2 == (if cs[i].used then 1 else 0)
    ensures i < |cs| ==> w[curr / 8] - w[curr / 8] % 2 == 8 * cs[i].len
    ensures i < |cs| ==> curr + 8 + 8 * cs[i].len == 8 * Start(cs, i + 1) <= MEMLENGTH
  {
    hide Lays, Start, Kept, Coalesced, Header;
    CursorStep(w, cs, i, curr);
    if i < |cs| {
      HeaderFields(cs[i]);
    }
  }

  lemma CoalescingSkips(w0: Memory, was: Layout, w: Memory, cs: Layout, i: nat)
    requires Coalescing(w0, was, w, cs, i) && i < |cs|
    requires cs[i].used || i + 1 == |cs| || cs[i + 1].used
    ensures Coalescing(w0, was, w, cs, i + 1)
  {
    assert cs[i..][1..] == cs[i + 1..];
  }

  lemma CoalescingMerges(w0: Memory, was: Layout, w: Memory, cs: Layout, i: nat, h: nat, x: Word)
    requires Coalescing(w0, was, w, cs, i) && i + 1 < |cs| && !cs[i].used && !cs[i + 1].used
    requires h == Start(cs, i) < WORDS && x == 8 * (cs[i].len + 1 + cs[i + 1].len)
    ensures Coalescing(w0, was, w[h := x], Merged(cs, i), i) && Start(Merged(cs, i), i) == h
  {
    MergeStep(w, cs, i, x);
    MergeKept(w0, w, cs, i, h, x);
    assert cs[i..][2..] == cs[i + 2..];
    MergedSlices(cs, i);
  }

  lemma MergedSlices(cs: Layout, i: nat)
    requires i + 1 < |cs|
    ensures Merged(cs, i)[..i] == cs[..i]
    ensures Merged(cs, i)[i..] == [Chunk(cs[i].len + 1 + cs[i + 1].len, false)] + cs[i + 2..]
  {
    var m := [Chunk(cs[i].len + 1 + cs[i + 1].len, false)];
    assert Merged(cs, i) == cs[..i] + (m + cs[i + 2..]);
  }

  lemma {:induction false} CoalescingEnds(w0: Memory, was: Layout, w: Memory, cs: Layout)
    requires Coalescing(w0, was, w, cs, |cs|)
    ensures cs == Coalesced(was) && Span(cs) == WORDS && w == Written(w0, cs)
    ensures forall k :: 0 <= k < WORDS && !IsStart(cs, k) ==> w[k] == w0[k]
  {
    WrittenIs(w0, w, cs);
  }

  // ----- searching and splitting -----

  /** The chunk where the search stops is the first fit. */
  lemma {:induction false} FirstFitIs(cs: Layout, n: nat, i: nat)
    requires i <= |cs| && forall j :: 0 <= j < i ==> cs[j].used || cs[j].len < n
    ensures i == |cs| ==> FirstFit(cs, n) == None
    ensures i < |cs| && !cs[i].used && n <= cs[i].len ==> FirstFit(cs, n) == Some(i)
  {
  }

  lemma TakenStart(cs: Layout, i: nat, n: Positive, j: nat)
    requires i < |cs| && n <= cs[i].len && j <= |Take(cs, i, n)|
    ensures j <= i ==> Start(Take(cs, i, n), j) == Start(cs, j)
    ensures j == i + 1 && n + 2 <= cs[i].len ==> Start(Take(cs, i, n), j) == Start(cs, i) + 1 + n
    ensures j > i && cs[i].len < n + 2 ==> Start(Take(cs, i, n), j) == Start(cs, j)
    ensures j > i + 1 && n + 2 <= cs[i].len ==> Start(Take(cs, i, n), j) == Start(cs, j - 1)
    decreases j
  {
    if j > 0 {
      TakenStart(cs, i, n, j - 1);
    }
  }

  /** What split_chunk leaves of the words of the chunk `c` at `h`. */
  ghost predicate Trimmed(w: Memory, w': Memory, c: Chunk, h: nat, n: Positive) {
    && h + 1 + c.len <= WORDS
    && w'[h] == Header(if n + 2 <= c.len then Chunk(n, c.used) else c)
    && (n + 2 <= c.len ==> w'[h + 1 + n] == Header(Chunk(c.len - n - 1, false)))
    && forall k :: 0 <= k < WORDS && k != h && !(n + 2 <= c.len && k == h + 1 + n) ==> w'[k] == w[k]
  }

  /** The two headers that split_chunk writes. */
  lemma SplitHeaders(c: Chunk, n: Positive, header: Word, remaining: int, size: int)
    requires n + 2 <= c.len && header == Header(c) && size == 8 * n && remaining == 8 * c.len - size - 8
    ensures remaining - remaining % 2 == Header(Chunk(c.len - n - 1, false))
    ensures (size - size % 2) + header % 2 == Header(Chunk(n, c.used))
  {
    hide Header;
    HeaderFields(c);
    HeaderFields(Chunk(n, c.used));
    HeaderFields(Chunk(c.len - n - 1, false));
    NoFlag(n);
    NoFlag(c.len - n - 1);
  }

  /** The same after the chunk has been marked allocated. */
  ghost predicate Carved(w: Memory, w': Memory, c: Chunk, h: nat, n: Positive) {
    && h + 1 + c.len <= WORDS
    && w'[h] == Header(Carve(c, n)[0])
    && (n + 2 <= c.len ==> w'[h + 1 + n] == Header(Carve(c, n)[1]))
    && forall k :: 0 <= k < WORDS && k != h && !(n + 2 <= c.len && k == h + 1 + n) ==> w'[k] == w[k]
  }

  lemma MarkCarved(w: Memory, w': Memory, c: Chunk, h: nat, n: Positive)
    requires Trimmed(w, w', c, h, n) && !c.used
    ensures w'[h] % 2 == 0 && Carved(w, w'[h := w'[h] + 1], c, h, n)
  {
  }

  lemma {:induction false} TakenHeader(w: Memory, w': Memory, cs: Layout, i: nat, n: Positive, j: nat)
    requires Lays(w, cs) && i < |cs| && n <= cs[i].len && Carved(w, w', cs[i], Start(cs, i), n)
    requires j < |Take(cs, i, n)|
    ensures HasHeader(w', Take(cs, i, n), j)
  {
    TakenStart(cs, i, n, j);
    if j < i {
      StartOrder(cs, j, i);
      assert HasHeader(w, cs, j);
    } else if j >= i + |Carve(cs[i], n)| {
      TakenHeaderBehind(w, w', cs, i, n, j);
    }
  }

  lemma {:induction false} TakenHeaderBehind(w: Memory, w': Memory, cs: Layout, i: nat, n: Positive, j: nat)
    requires Lays(w, cs) && i < |cs| && n <= cs[i].len && Carved(w, w', cs[i], Start(cs, i), n)
    requires i + |Carve(cs[i], n)| <= j < |Take(cs, i, n)|
    ensures HasHeader(w', Take(cs, i, n), j)
  {
    var k := j + 1 - |Carve(cs[i], n)|;
    TakenStart(cs, i, n, j);
    assert Take(cs, i, n)[j] == cs[k];
    StartOrder(cs, i, k);
    assert HasHeader(w, cs, k);
  }

  /** They are those of the carved list. */
  lemma {:induction false} TakeWritten(w: Memory, w': Memory, cs: Layout, i: nat, n: Positive)
    requires Lays(w, cs) && i < |cs| && n <= cs[i].len && Carved(w, w', cs[i], Start(cs, i), n)
    ensures Span(Take(cs, i, n)) == WORDS && w' == Written(w, Take(cs, i, n))
  {
    var t := Take(cs, i, n);
    TakenStart(cs, i, n, |t|);
    forall j | 0 <= j < |t| ensures HasHeader(w', t, j) {
      TakenHeader(w, w', cs, i, n, j);
    }
    forall k | 0 <= k < WORDS && !IsStart(t, k) ensures w'[k] == w[k] {
      TakenStart(cs, i, n, i);
      assert !StartsAt(t, i, k);
      if n + 2 <= cs[i].len {
        TakenStart(cs, i, n, i + 1);
        assert !StartsAt(t, i + 1, k);
      }
    }
    WrittenIs(w, w', t);
  }

  /** The arena and the `initialized` flag. The internal methods take the chunk list that
      memory holds as a ghost argument; the entry points are stated on raw memory alone. */
  class Arena {
    var heap: array<Word>
    var initialized: bool

    /** The raw state of the allocator. */
    ghost function State(): HeapState
      requires heap.Length == WORDS
      reads this, heap
    {
      HeapState(heap[..], initialized)
    }

    ghost predicate Valid()
      reads this, heap
    {
      heap.Length == WORDS && State().Valid()
    }

    constructor ()
      ensures fresh(heap) && Valid() && State() == START
    {
      heap := new Word[WORDS](i => 0);
      initialized := false;
    }

    method InitHeap()
      requires Valid() && !initialized
      modifies this`initialized, heap
      ensures Valid() && State() == Initialized(old(State()))
    {
      heap[0] := MEMLENGTH - HEADER_SIZE;
      initialized := true;
      InitializedFacts(old(State()));
      assert State() == Initialized(old(State()));
    }

    /** The offset of the lowest-addressed free chunk of at least `size` bytes. */
    method FindFree(size: Word, ghost cs: Layout, ghost n: Positive) returns (chunk: Option<nat>)
      requires heap.Length == WORDS && Lays(heap[..], cs) && size == 8 * n
      ensures FirstFit(cs, n).None? ==> chunk.None?
      ensures FirstFit(cs, n).Some? ==> chunk == Some(8 * Start(cs, FirstFit(cs, n).value))
    {
      ghost var i: nat := 0;
      var curr, end := 0, MEMLENGTH;
      while curr < end
        invariant i <= |cs| && curr == 8 * Start(cs, i)
        invariant forall j :: 0 <= j < i ==> cs[j].used || cs[j].len < n
        decreases |cs| - i
      {
        CursorStep(heap[..], cs, i, curr);
        var header := heap[curr / 8];
        var chunk_size := header - header % 2;
        if i < |cs| {
          EndsInsideIff(curr + HEADER_SIZE, chunk_size);
        }
        if chunk_size == 0 || !EndsInside(curr + HEADER_SIZE, chunk_size) {
          break;
        }
        if header % 2 == 0 && chunk_size >= size {
          FirstFitIs(cs, n, i);
          return Some(curr);
        }
        curr := curr + HEADER_SIZE + chunk_size;
        i := i + 1;
      }
      CursorStep(heap[..], cs, i, curr);
      FirstFitIs(cs, n, i);
      return None;
    }

    /** Cuts the chunk at offset `chunk` down to `size` bytes when the rest can hold a
        chunk; the allocated bit is kept and the rest is free. */
    method SplitChunk(chunk: nat, size: Word, ghost c: Chunk, ghost h: nat, ghost n: Positive)
      requires heap.Length == WORDS && h + 1 + c.len <= WORDS && heap[h] == Header(c)
      requires chunk == 8 * h && size == 8 * n
      modifies heap
      ensures Trimmed(old(heap[..]), heap[..], c, h, n)
    {
      hide Header;
      assert chunk / 8 == h;
      var header := heap[chunk / 8];
      var chunk_size := header - header % 2;
      HeaderFields(c);
      if chunk_size >= size + MIN_CHUNK_SIZE {
        var new_addr := chunk + HEADER_SIZE + size;
        var remaining := chunk_size - size - HEADER_SIZE;
        assert new_addr / 8 == h + 1 + n;
        SplitHeaders(c, n, header, remaining, size);
        heap[new_addr / 8] := remaining - remaining % 2;
        heap[chunk / 8] := (size - size % 2) + heap[chunk / 8] % 2;
      }
    }

    /** Merges every run of free chunks into one, on any tiled heap. The cursor stays where
        it is after a merge; the chunks from the cursor on become fewer at every turn. */
    method Coalesce(ghost was: Layout)
      requires heap.Length == WORDS && Lays(heap[..], was)
      modifies heap
      ensures Lays(heap[..], Coalesced(was)) && Span(Coalesced(was)) == WORDS
      ensures heap[..] == Written(old(heap[..]), Coalesced(was))
      ensures forall k :: 0 <= k < WORDS && !IsStart(Coalesced(was), k) ==> heap[k] == old(heap[k])
    {
      hide Coalescing, Coalesced, Written, Start, Lays, Merged, Span, Header;
      ghost var w0: Memory := heap[..];
      ghost var cs := was;
      ghost var i: nat := 0;
      var curr, end := 0, MEMLENGTH;
      CoalescingStarts(w0, was);
      while curr < end
        invariant heap.Length == WORDS && i <= |cs| && Coalescing(w0, was, heap[..], cs, i) && curr == 8 * Start(cs, i)
        decreases |cs| - i
      {
        ghost var w: Memory := heap[..];
        CoalescingCursor(w0, was, w, cs, i, curr);
        var header := heap[curr / 8];
        var chunk_size := header - header % 2;
        if chunk_size == 0 {
          break;
        }
        if header % 2 == 0 {
          var next_addr := curr + HEADER_SIZE + chunk_size;
          CursorStep(w, cs, i + 1, next_addr);
          if next_addr < end {
            HeaderFields(cs[i + 1]);
            var next := heap[next_addr / 8];
            var next_size := next - next % 2;
            if next_size > 0 && next % 2 == 0 {
              var merged: Word := chunk_size + HEADER_SIZE + next_size;
              NoFlag(cs[i].len + 1 + cs[i + 1].len);
              heap[curr / 8] := merged - merged % 2;
              CoalescingMerges(w0, was, w, cs, i, curr / 8, merged);
              assert heap[..] == w[curr / 8 := merged];
              cs := Merged(cs, i);
              continue;
            }
          }
        }
        CoalescingSkips(w0, was, w, cs, i);
        curr := curr + HEADER_SIZE + chunk_size;
        i := i + 1;
      }
      CoalescingCursor(w0, was, heap[..], cs, i, curr);
      CoalescingEnds(w0, was, heap[..], cs);
    }

    /** Whether the offset lies in the arena and is 8-aligned. */
    method ValidPtr(p: int) returns (valid: bool)
      ensures valid == InArena(p)
    {
      if p < 0 || p >= MEMLENGTH {
        return false;
      }
      if p % 8 != 0 {
        return false;
      }
      return true;
    }

    /** The leak report: how many blocks are live, and their payload bytes. */
    method CheckLeaks() returns (count: nat, bytes: nat)
      requires Valid() && initialized
      ensures count == |State().Blocks()|
      ensures bytes == 8 * Total(State().Blocks())
    {
      LaysDecode(heap[..]);
      ghost var cs := State().Chunks();
      ghost var i: nat := 0;
      var curr, end := 0, MEMLENGTH;
      count, bytes := 0, 0;
      assert cs[0..] == cs;
      while curr < end
        invariant i <= |cs| && curr == 8 * Start(cs, i)
        invariant UsedChunks(cs) == count + UsedChunks(cs[i..])
        invariant 8 * UsedWords(cs) == bytes + 8 * UsedWords(cs[i..])
        decreases |cs| - i
      {
        CursorStep(heap[..], cs, i, curr);
        var header := heap[curr / 8];
        var chunk_size := header - header % 2;
        if chunk_size == 0 {
          break;
        }
        if header % 2 == 1 {
          count := count + 1;
          bytes := bytes + chunk_size;
        }
        assert cs[i..][0] == cs[i] && cs[i..][1..] == cs[i + 1..];
        curr := curr + HEADER_SIZE + chunk_size;
        i := i + 1;
      }
      CursorStep(heap[..], cs, i, curr);
      UsedChunksIsLive(0, cs);
      UsedWordsIsTotal(0, cs);
    }

    /** mymalloc. The second search, after coalescing, never finds what the first one did
        not: the result is that of the first search alone. */
    method Mymalloc(size: Word) returns (p: Option<nat>)
      requires Valid() && size <= MAX_REQUEST
      modifies this`initialized, heap
      ensures heap.Length == WORDS && (State(), p) == Malloc(old(State()), size)
    {
      hide Take, Written, FirstFit, Span, Decode, Start, Normal, Lays;
      if !initialized {
        InitHeap();
      }
      assert State() == Initialized(old(State()));
      if size == 0 {
        return None;
      }
      var aligned := (size + 7) % 0x1_0000_0000_0000_0000;
      aligned := aligned - aligned % 8;
      RequestFacts(size);
      ghost var g := State();
      LaysDecode(g.words);
      p := Allocate(aligned, g.Chunks(), Request(size));
      MallocCases(old(State()), g, size);
      if FirstFit(g.Chunks(), Request(size)).Some? {
        StartIsSpan(g.Chunks(), FirstFit(g.Chunks(), Request(size)).value);
      }
    }

    /** mymalloc behind the rounding: search, coalesce and search again, split, mark. */
    method Allocate(aligned: Word, ghost cs: Layout, ghost n: Positive) returns (p: Option<nat>)
      requires heap.Length == WORDS && Lays(heap[..], cs) && Normal(cs) && aligned == 8 * n
      modifies heap
      ensures FirstFit(cs, n).None? ==> p == None && heap[..] == old(heap[..])
      ensures FirstFit(cs, n).Some? ==> p == Some(8 * (Start(cs, FirstFit(cs, n).value) + 1))
      ensures FirstFit(cs, n).Some? ==> heap[..] == Written(old(heap[..]), Take(cs, FirstFit(cs, n).value, n))
    {
      hide FirstFit, Take, Written, Carve, Start, Coalesced, Normal;
      ghost var w: Memory := heap[..];
      var chunk := FindFree(aligned, cs, n);
      if chunk.None? {
        CoalescedOfNormal(cs);
        Coalesce(cs);
        AlreadyWritten(w, cs);
        chunk := FindFree(aligned, cs, n);
        if chunk.None? {
          return None;
        }
      }
      assert heap[..] == w;
      ghost var i := FirstFit(cs, n).value;
      ghost var h := Start(cs, i);
      CursorStep(w, cs, i, chunk.value);
      SplitChunk(chunk.value, aligned, cs[i], h, n);
      ghost var w': Memory := heap[..];
      MarkCarved(w, w', cs[i], h, n);
      var header := heap[chunk.value / 8];
      heap[chunk.value / 8] := header - header % 2 + 1;
      assert heap[..] == w'[h := w'[h] + 1];
      TakeWritten(w, heap[..], cs, i, n);
      return Some(chunk.value + HEADER_SIZE);
    }

    /** myfree, for every pointer a program can pass. */
    method Myfree(ptr: Pointer) returns (r: FreeResult)
      requires Valid()
      modifies heap
      ensures heap.Length == WORDS && (State(), r) == Free(old(State()), ptr)
    {
      hide Decode, Normal, Span, Written, Coalesced, Lays, At, MarkFree;
      if ptr.Null? {
        return Returned;
      }
      var valid := ValidPtr(ptr.offset);
      if !valid {
        return Rejected;
      }
      var chunk := ptr.offset - HEADER_SIZE;
      valid := ValidPtr(chunk);
      if !valid {
        return Rejected;
      }
      var header := heap[chunk / 8];
      if header % 2 == 0 {
        return Rejected;
      }
      var chunk_size := header - header % 2;
      if chunk_size == 0 || !EndsInside(chunk + HEADER_SIZE, chunk_size) {
        return Rejected;
      }
      ClearFlag(State(), ptr.offset);
      ghost var w := Unflagged(State(), ptr.offset);
      heap[chunk / 8] := header - header % 2;
      assert heap[..] == w;
      LaysDecode(w);
      Coalesce(Decode(w, 0));
      return Returned;
    }

    /** A store by the program into a live payload. */
    method Poke(i: nat, v: Word)
      requires Valid() && InPayload(State(), i)
      modifies heap
      ensures Valid() && i < WORDS && State() == Store(old(State()), i, v)
    {
      StoreKeepsHeaders(State(), i, v);
      heap[i] := v;
      assert heap[..] == old(heap[..])[i := v];
    }
  }

  /** Writing the headers that are there already changes nothing. */
  lemma {:induction false} AlreadyWritten(w: Memory, cs: Layout)
    requires Lays(w, cs)
    ensures Span(cs) == WORDS && Written(w, cs) == w
  {
    WrittenIs(w, w, cs);
  }
}
