/** Chunk lists: the abstract content of the 4096-byte arena of mymalloc.c, and the
    pure functions that its search, split and coalesce loops compute.

    All positions and lengths are counted in 8-byte words: a chunk whose header is the
    word `h` and whose payload is `len` words covers the words [h, h + 1 + len). */
module HeapLayout {
  import opened Options

  type Positive = n: int | 0 < n witness 1

  type Word = x: int | 0 <= x < 0x1_0000_0000_0000_0000

  /** One chunk: its payload length in words and its allocated bit. */
  datatype Chunk = Chunk(len: Positive, used: bool)

  type Layout = seq<Chunk>

  const WORDS: nat := 512

  /** The header word: the payload size in bytes, with the allocated bit in the LSB. */
  function Header(c: Chunk): nat {
    8 * c.len + if c.used then 1 else 0
  }

  lemma HeaderFields(c: Chunk)
    ensures Header(c) % 2 == (if c.used then 1 else 0) && Header(c) == 8 * c.len + if c.used then 1 else 0
  {
    FlagOf(c.len, if c.used then 1 else 0);
  }

  lemma FlagOf(k: nat, flag: nat)
    requires flag <= 1
    ensures (8 * k + flag) % 2 == flag
  {
    Parity(4 * k, flag);
  }

  lemma Parity(h: nat, flag: nat)
    requires flag <= 1
    ensures (2 * h + flag) % 2 == flag
  {
  }

  lemma NoFlag(k: nat)
    ensures (8 * k) % 2 == 0
  {
    FlagOf(k, 0);
  }

  /** The number of words that the chunks cover, headers included. */
  function Span(cs: Layout): nat {
    if cs == [] then 0 else 1 + cs[0].len + Span(cs[1..])
  }

  /** The chunks by the position of their header, the first header being at `p`. */
  function At(p: nat, cs: Layout): (m: map<nat, Chunk>)
    ensures forall k <- m :: p <= k && k + 1 + m[k].len <= p + Span(cs)
    decreases |cs|
  {
    if cs == [] then map[]
    else At(p + 1 + cs[0].len, cs[1..])[p := cs[0]]
  }

  /** The live blocks: header position to payload length, allocated chunks only. */
  function Live(p: nat, cs: Layout): map<nat, Positive>
    decreases |cs|
  {
    if cs == [] then map[]
    else
      var rest := Live(p + 1 + cs[0].len, cs[1..]);
      if cs[0].used then rest[p := cs[0].len] else rest
  }

  /** Word `i` belongs to a free chunk (its header or its payload). */
  predicate FreeCell(p: nat, cs: Layout, i: nat)
    decreases |cs|
  {
    && cs != []
    && if i < p + 1 + cs[0].len then p <= i && !cs[0].used
       else FreeCell(p + 1 + cs[0].len, cs[1..], i)
  }

  /** No two adjacent chunks are free. */
  predicate Normal(cs: Layout) {
    forall i :: 0 <= i < |cs| - 1 ==> cs[i].used || cs[i + 1].used
  }

  // ----- positions -----

  lemma {:induction false} SpanAppend(a: Layout, b: Layout)
    ensures Span(a + b) == Span(a) + Span(b)
  {
    if a == [] {
      assert a + b == b;
    } else {
      assert (a + b)[1..] == a[1..] + b;
      SpanAppend(a[1..], b);
    }
  }

  /** The chunk with index `i` has its header behind the chunks before it. */
  lemma {:induction false} HeaderAt(p: nat, cs: Layout, i: nat)
    requires i < |cs|
    ensures p + Span(cs[..i]) in At(p, cs) && At(p, cs)[p + Span(cs[..i])] == cs[i]
    decreases |cs|
  {
    if i > 0 {
      HeaderAt(p + 1 + cs[0].len, cs[1..], i - 1);
      assert cs[..i][1..] == cs[1..][..i - 1];
    }
  }

  lemma {:induction false} AtSingle(p: nat, c: Chunk)
    ensures At(p, [c]) == map[p := c] && Span([c]) == 1 + c.len
  {
    assert [c][1..] == [];
  }

  lemma {:induction false} LiveCons(p: nat, c: Chunk, b: Layout)
    ensures Span([c] + b) == 1 + c.len + Span(b)
    ensures Live(p, [c] + b) == if c.used then Live(p + 1 + c.len, b)[p := c.len] else Live(p + 1 + c.len, b)
  {
    assert ([c] + b)[1..] == b;
  }

  lemma {:induction false} LiveBounds(p: nat, cs: Layout)
    ensures forall k <- Live(p, cs) :: p <= k && k + 1 + Live(p, cs)[k] <= p + Span(cs)
    decreases |cs|
  {
    if cs != [] {
      LiveBounds(p + 1 + cs[0].len, cs[1..]);
    }
  }

  lemma {:induction false} LiveIsUsed(p: nat, cs: Layout, k: nat)
    ensures k in Live(p, cs) <==> k in At(p, cs) && At(p, cs)[k].used
    ensures k in Live(p, cs) ==> Live(p, cs)[k] == At(p, cs)[k].len
    decreases |cs|
  {
    if cs != [] {
      LiveBounds(p + 1 + cs[0].len, cs[1..]);
      LiveIsUsed(p + 1 + cs[0].len, cs[1..], k);
    }
  }

  /** Different chunks do not overlap. */
  lemma {:induction false} Disjoint(p: nat, cs: Layout, h: nat, k: nat)
    requires h in At(p, cs) && k in At(p, cs) && h < k
    ensures h + 1 + At(p, cs)[h].len <= k
    decreases |cs|
  {
    if h != p {
      Disjoint(p + 1 + cs[0].len, cs[1..], h, k);
    }
  }

  /** The index of the chunk whose header is at `h`. */
  function IndexOf(p: nat, cs: Layout, h: nat): (i: nat)
    requires h in At(p, cs)
    ensures i < |cs| && h == p + Span(cs[..i]) && cs[i] == At(p, cs)[h]
    decreases |cs|
  {
    if h == p then 0
    else
      var i := IndexOf(p + 1 + cs[0].len, cs[1..], h);
      assert cs[..i + 1][1..] == cs[1..][..i];
      i + 1
  }

  /** A word is in a free chunk exactly when it is in the arena and in no live block. */
  lemma {:induction false} FreeCellIffNotLive(p: nat, cs: Layout, i: nat)
    ensures FreeCell(p, cs, i) <==>
            p <= i < p + Span(cs) && forall k <- Live(p, cs) :: !(k <= i < k + 1 + Live(p, cs)[k])
    decreases |cs|
  {
    if cs != [] {
      var q := p + 1 + cs[0].len;
      FreeCellIffNotLive(q, cs[1..], i);
      LiveBounds(q, cs[1..]);
      assert forall k :: k in Live(p, cs) <==> (k == p && cs[0].used) || k in Live(q, cs[1..]);
      assert forall k <- Live(q, cs[1..]) :: k >= q && Live(p, cs)[k] == Live(q, cs[1..])[k];
      if cs[0].used {
        assert Live(p, cs)[p] == cs[0].len;
      }
    }
  }

  // ----- first fit -----

  /** The first free chunk that holds `n` words. */
  function FirstFit(cs: Layout, n: nat): (r: Option<nat>)
    ensures r.Some? ==> r.value < |cs| && !cs[r.value].used && n <= cs[r.value].len
    ensures r.Some? ==> forall j :: 0 <= j < r.value ==> cs[j].used || cs[j].len < n
    ensures r.None? ==> forall j :: 0 <= j < |cs| ==> cs[j].used || cs[j].len < n
  {
    if cs == [] then None
    else if !cs[0].used && n <= cs[0].len then Some(0)
    else match FirstFit(cs[1..], n)
      case None => None
      case Some(i) => Some(i + 1)
  }

  // ----- split -----

  /** A free chunk after `n` of its words have been handed out: split when at least two
      words (MIN_CHUNK_SIZE bytes) remain, and taken whole otherwise. */
  function Carve(c: Chunk, n: Positive): Layout {
    if n + 2 <= c.len then [Chunk(n, true), Chunk(c.len - n - 1, false)]
    else [Chunk(c.len, true)]
  }

  function Take(cs: Layout, i: nat, n: Positive): Layout
    requires i < |cs|
  {
    cs[..i] + Carve(cs[i], n) + cs[i + 1..]
  }

  lemma SetTwice<K, V>(m: map<K, V>, k: K, v: V, l: K, u: V)
    requires k != l
    ensures m[k := v][l := u] == m[l := u][k := v]
  {
  }

  /** Replacing one chunk by another of the same length. */
  lemma {:induction false} AtSwap(p: nat, cs: Layout, i: nat, c: Chunk, h: nat)
    requires i < |cs| && c.len == cs[i].len && h == p + Span(cs[..i])
    ensures Span(cs[i := c]) == Span(cs)
    ensures At(p, cs[i := c]) == At(p, cs)[h := c]
    decreases i
  {
    var q := p + 1 + cs[0].len;
    if i == 0 {
      assert cs[0 := c][1..] == cs[1..];
    } else {
      assert cs[i := c][1..] == cs[1..][i - 1 := c];
      assert cs[..i][1..] == cs[1..][..i - 1];
      AtSwap(q, cs[1..], i - 1, c, h);
      SetTwice<nat, Chunk>(At(q, cs[1..]), h, c, p, cs[0]);
    }
  }

  lemma {:induction false} CarveLive(p: nat, c: Chunk, n: Positive, b: Layout)
    ensures Span(Carve(c, n) + b) == 1 + c.len + Span(b)
    ensures Live(p, Carve(c, n) + b) == Live(p + 1 + c.len, b)[p := Carve(c, n)[0].len]
  {
    if n + 2 <= c.len {
      var d := Chunk(c.len - n - 1, false);
      assert Carve(c, n) + b == [Chunk(n, true)] + ([d] + b);
      LiveCons(p, Chunk(n, true), [d] + b);
      LiveCons(p + 1 + n, d, b);
    } else {
      LiveCons(p, Chunk(c.len, true), b);
    }
  }

  /** Handing out a free chunk keeps the arena covered and adds exactly one live block. */
  lemma {:induction false} TakeFacts(p: nat, cs: Layout, i: nat, n: Positive, h: nat)
    requires i < |cs| && h == p + Span(cs[..i])
    ensures Span(Take(cs, i, n)) == Span(cs)
    ensures !cs[i].used ==> Live(p, Take(cs, i, n)) == Live(p, cs)[h := Carve(cs[i], n)[0].len]
    decreases i
  {
    var c, b := cs[0], cs[1..];
    var q := p + 1 + c.len;
    if i == 0 {
      assert Take(cs, i, n) == Carve(c, n) + b;
      CarveLive(p, c, n, b);
    } else {
      TakeRest(cs, i, n);
      TakeFacts(q, b, i - 1, n, h);
      LiveCons(p, c, Take(b, i - 1, n));
      SetTwice<nat, Positive>(Live(q, b), h, Carve(cs[i], n)[0].len, p, c.len);
    }
  }

  lemma TakeRest(cs: Layout, i: nat, n: Positive)
    requires 0 < i < |cs|
    ensures Take(cs, i, n) == [cs[0]] + Take(cs[1..], i - 1, n)
    ensures Span(cs[..i]) == 1 + cs[0].len + Span(cs[1..][..i - 1])
  {
    assert cs[..i][1..] == cs[1..][..i - 1];
  }

  /** The chunk that is handed out was not live. */
  lemma {:induction false} TakenIsNew(cs: Layout, i: nat)
    requires i < |cs| && !cs[i].used
    ensures Span(cs[..i]) !in Live(0, cs)
  {
    HeaderAt(0, cs, i);
    LiveIsUsed(0, cs, Span(cs[..i]));
  }

  lemma TakeIsNormal(cs: Layout, i: nat, n: Positive)
    requires i < |cs| && !cs[i].used && n <= cs[i].len && Normal(cs)
    ensures Normal(Take(cs, i, n))
  {
    var t := Take(cs, i, n);
    var d := |Carve(cs[i], n)| - 1;
    forall j | 0 <= j < |t| - 1 ensures t[j].used || t[j + 1].used {
      if j < i {
        assert j < i - 1 ==> cs[j].used || cs[j + 1].used;
      } else if j > i + d {
        assert cs[j - d].used || cs[j - d + 1].used;
      } else if j == i + d {
        assert cs[i].used || cs[i + 1].used;
      }
    }
  }

  // ----- coalesce -----

  /** The list that the coalesce loop leaves: a free chunk swallows its successor for as
      long as that is free too. */
  function Coalesced(cs: Layout): Layout
    decreases |cs|
  {
    if |cs| < 2 then cs
    else if !cs[0].used && !cs[1].used
    then Coalesced([Chunk(cs[0].len + 1 + cs[1].len, false)] + cs[2..])
    else [cs[0]] + Coalesced(cs[1..])
  }

  /** Coalescing leaves no two adjacent free chunks, and changes neither the extent of the
      list nor the kind of its first chunk. */
  lemma {:induction false} CoalescedIsNormal(cs: Layout)
    ensures Normal(Coalesced(cs)) && Span(Coalesced(cs)) == Span(cs)
    ensures cs != [] ==> Coalesced(cs) != [] && Coalesced(cs)[0].used == cs[0].used
    decreases |cs|
  {
    if |cs| >= 2 {
      if !cs[0].used && !cs[1].used {
        var m := [Chunk(cs[0].len + 1 + cs[1].len, false)] + cs[2..];
        assert cs[1..][1..] == cs[2..] == m[1..];
        CoalescedIsNormal(m);
      } else {
        CoalescedIsNormal(cs[1..]);
      }
    }
  }

  /** Every allocated chunk keeps its place and size. */
  lemma {:induction false} CoalescedKeepsLive(p: nat, cs: Layout)
    ensures Live(p, Coalesced(cs)) == Live(p, cs)
    decreases |cs|
  {
    if |cs| >= 2 {
      var c, b := cs[0], cs[1..];
      if !c.used && !b[0].used {
        var m := Chunk(c.len + 1 + b[0].len, false);
        assert b[1..] == cs[2..];
        CoalescedKeepsLive(p, [m] + cs[2..]);
        LiveCons(p, m, cs[2..]);
      } else {
        CoalescedKeepsLive(p + 1 + c.len, b);
        LiveCons(p, c, Coalesced(b));
      }
    }
  }

  /** Coalescing creates no header. */
  lemma {:induction false} CoalescedHeaders(p: nat, cs: Layout)
    ensures At(p, Coalesced(cs)).Keys <= At(p, cs).Keys
    decreases |cs|
  {
    if |cs| >= 2 {
      var q := p + 1 + cs[0].len;
      if !cs[0].used && !cs[1].used {
        var m := [Chunk(cs[0].len + 1 + cs[1].len, false)] + cs[2..];
        assert cs[1..][1..] == cs[2..] == m[1..];
        CoalescedHeaders(p, m);
        assert At(p, m).Keys <= At(p, cs).Keys;
      } else {
        CoalescedHeaders(q, cs[1..]);
        assert Coalesced(cs)[1..] == Coalesced(cs[1..]);
      }
    }
  }

  /** The set of free cells, headers included, is unchanged. */
  lemma {:induction false} CoalescedKeepsFreeCells(cs: Layout, i: nat)
    ensures FreeCell(0, Coalesced(cs), i) <==> FreeCell(0, cs, i)
  {
    CoalescedIsNormal(cs);
    CoalescedKeepsLive(0, cs);
    FreeCellIffNotLive(0, cs, i);
    FreeCellIffNotLive(0, Coalesced(cs), i);
  }

  /** A normal list is a fixed point. */
  lemma {:induction false} CoalescedOfNormal(cs: Layout)
    requires Normal(cs)
    ensures Coalesced(cs) == cs
  {
    if |cs| >= 2 {
      assert cs[0].used || cs[1].used;
      assert Normal(cs[1..]) by {
        forall i | 0 <= i < |cs[1..]| - 1 ensures cs[1..][i].used || cs[1..][i + 1].used {
          assert cs[i + 1].used || cs[i + 2].used;
        }
      }
      CoalescedOfNormal(cs[1..]);
    }
  }

  /** Coalescing is idempotent. */
  lemma {:induction false} CoalesceIdempotent(cs: Layout)
    ensures Coalesced(Coalesced(cs)) == Coalesced(cs)
  {
    CoalescedIsNormal(cs);
    CoalescedOfNormal(Coalesced(cs));
  }

  // ----- canonicity -----

  /** A normal chunk list is determined by its extent and its live blocks. */
  lemma {:induction false} Canonical(p: nat, a: Layout, b: Layout)
    requires Normal(a) && Normal(b) && Span(a) == Span(b)
    requires Live(p, a) == Live(p, b)
    ensures a == b
    decreases |a|
  {
    if a == [] || b == [] {
    } else {
      HeadsAgree(p, a, b);
      HeadsAgree(p, b, a);
      var q := p + 1 + a[0].len;
      TailLive(p, a);
      TailLive(p, b);
      NormalTail(a);
      NormalTail(b);
      Canonical(q, a[1..], b[1..]);
      assert a == [a[0]] + a[1..];
    }
  }

  lemma NormalTail(a: Layout)
    requires Normal(a) && a != []
    ensures Normal(a[1..])
  {
    forall i | 0 <= i < |a[1..]| - 1 ensures a[1..][i].used || a[1..][i + 1].used {
      assert a[i + 1].used || a[i + 2].used;
    }
  }

  lemma TailLive(p: nat, a: Layout)
    requires a != []
    ensures Live(p + 1 + a[0].len, a[1..]) == Live(p, a) - {p}
    ensures p in Live(p, a) <==> a[0].used
    ensures a[0].used ==> Live(p, a)[p] == a[0].len
  {
    LiveBounds(p + 1 + a[0].len, a[1..]);
  }

  /** The first chunks of two such lists cannot differ. */
  lemma {:induction false} HeadsAgree(p: nat, a: Layout, b: Layout)
    requires a != [] && b != []
    requires Normal(a) && Normal(b) && Span(a) == Span(b)
    requires Live(p, a) == Live(p, b)
    ensures a[0].used == b[0].used && a[0].len >= b[0].len
  {
    TailLive(p, a);
    TailLive(p, b);
    if !a[0].used && |a| > 1 {
      assert a[0].used || a[1].used;
      TailLive(p + 1 + a[0].len, a[1..]);
      LiveBounds(p + 1 + b[0].len, b[1..]);
    }
  }

  // ----- freeing one chunk -----

  /** The list with the chunk at header `h` marked free, before coalescing. */
  function MarkFree(cs: Layout, h: nat): Layout
    requires h in At(0, cs)
  {
    cs[IndexOf(0, cs, h) := Chunk(At(0, cs)[h].len, false)]
  }

  lemma {:induction false} MarkFreeFacts(cs: Layout, h: nat)
    requires h in At(0, cs)
    ensures Span(MarkFree(cs, h)) == Span(cs)
    ensures At(0, MarkFree(cs, h)) == At(0, cs)[h := Chunk(At(0, cs)[h].len, false)]
  {
    AtSwap(0, cs, IndexOf(0, cs, h), Chunk(At(0, cs)[h].len, false), h);
  }

  lemma {:induction false} MarkFreeLive(cs: Layout, h: nat)
    requires h in At(0, cs)
    ensures Live(0, MarkFree(cs, h)) == Live(0, cs) - {h}
  {
    MarkFreeFacts(cs, h);
    var m := MarkFree(cs, h);
    forall k
      ensures k in Live(0, m) <==> k in Live(0, cs) && k != h
      ensures k in Live(0, m) ==> Live(0, m)[k] == Live(0, cs)[k]
    {
      LiveIsUsed(0, cs, k);
      LiveIsUsed(0, m, k);
    }
  }

  /** Freeing a live block of a normal heap: the new list is the one normal list of that
      extent whose live blocks are the old ones without `h`. */
  lemma {:induction false} FreeFacts(cs: Layout, h: nat)
    requires h in At(0, cs)
    ensures Span(Coalesced(MarkFree(cs, h))) == Span(cs)
    ensures Normal(Coalesced(MarkFree(cs, h)))
    ensures Live(0, Coalesced(MarkFree(cs, h))) == Live(0, cs) - {h}
    ensures At(0, Coalesced(MarkFree(cs, h))).Keys <= At(0, cs).Keys
  {
    MarkFreeFacts(cs, h);
    MarkFreeLive(cs, h);
    CoalescedIsNormal(MarkFree(cs, h));
    CoalescedKeepsLive(0, MarkFree(cs, h));
    CoalescedHeaders(0, MarkFree(cs, h));
  }

  // ----- how much can be allocated -----

  function FreeChunks(cs: Layout): nat {
    if cs == [] then 0 else (if cs[0].used then 0 else 1) + FreeChunks(cs[1..])
  }

  function UsedChunks(cs: Layout): nat {
    if cs == [] then 0 else (if cs[0].used then 1 else 0) + UsedChunks(cs[1..])
  }

  /** Total payload words of the free chunks. */
  function FreeWords(cs: Layout): nat {
    if cs == [] then 0 else (if cs[0].used then 0 else cs[0].len) + FreeWords(cs[1..])
  }

  /** Total payload words of the allocated chunks. */
  function UsedWords(cs: Layout): nat {
    if cs == [] then 0 else (if cs[0].used then cs[0].len else 0) + UsedWords(cs[1..])
  }

  lemma {:induction false} UsedChunksIsLive(p: nat, cs: Layout)
    ensures UsedChunks(cs) == |Live(p, cs)|
    decreases |cs|
  {
    if cs != [] {
      var q := p + 1 + cs[0].len;
      UsedChunksIsLive(q, cs[1..]);
      TailLive(p, cs);
      if cs[0].used {
        assert Live(p, cs).Keys == Live(q, cs[1..]).Keys + {p};
        assert |Live(p, cs)| == |Live(p, cs).Keys|;
        assert |Live(q, cs[1..])| == |Live(q, cs[1..]).Keys|;
      } else {
        assert Live(p, cs) == Live(q, cs[1..]);
      }
    }
  }

  /** The sum of the lengths in a map of blocks. */
  ghost function Total(m: map<nat, Positive>): nat
    decreases |m|
  {
    if m == map[] then 0
    else
      var k :| k in m;
      Fewer(m, k);
      m[k] + Total(m - {k})
  }

  lemma Fewer(m: map<nat, Positive>, k: nat)
    requires k in m
    ensures |m - {k}| < |m|
  {
    assert (m - {k}).Keys == m.Keys - {k};
    assert |m| == |m.Keys| && |m - {k}| == |(m - {k}).Keys|;
  }

  /** It does not depend on which block is counted first. */
  lemma {:induction false} TotalWithout(m: map<nat, Positive>, k: nat)
    requires k in m
    ensures Total(m) == m[k] + Total(m - {k})
    decreases |m|
  {
    var j :| j in m && Total(m) == m[j] + Total(m - {j});
    Fewer(m, j);
    Fewer(m, k);
    if j != k {
      TotalWithout(m - {j}, k);
      TotalWithout(m - {k}, j);
      assert m - {j} - {k} == m - {k} - {j};
    }
  }

  /** The payload words of the allocated chunks are those of the live blocks. */
  lemma {:induction false} UsedWordsIsTotal(p: nat, cs: Layout)
    ensures UsedWords(cs) == Total(Live(p, cs))
    decreases |cs|
  {
    if cs != [] {
      var q := p + 1 + cs[0].len;
      UsedWordsIsTotal(q, cs[1..]);
      TailLive(p, cs);
      hide Total;
      if cs[0].used {
        TotalWithout(Live(p, cs), p);
      } else {
        assert Live(p, cs) - {p} == Live(p, cs);
      }
    }
  }

  /** Every word is a header, or in the payload of an allocated or of a free chunk. */
  lemma {:induction false} WordsConserved(cs: Layout)
    ensures |cs| + UsedWords(cs) + FreeWords(cs) == Span(cs)
    ensures |cs| == UsedChunks(cs) + FreeChunks(cs)
  {
    if cs != [] {
      WordsConserved(cs[1..]);
    }
  }

  /** Between two free chunks of a normal list there is an allocated one. */
  lemma {:induction false} FewFreeChunks(cs: Layout)
    requires Normal(cs)
    ensures FreeChunks(cs) <= UsedChunks(cs) + 1
    ensures cs != [] && cs[0].used ==> FreeChunks(cs) <= UsedChunks(cs)
  {
    if cs != [] {
      NormalTail(cs);
      FewFreeChunks(cs[1..]);
      if !cs[0].used && |cs| > 1 {
        assert cs[0].used || cs[1].used;
      }
    }
  }

  lemma {:induction false} SmallFreeChunks(cs: Layout, n: Positive)
    requires forall i :: 0 <= i < |cs| ==> cs[i].used || cs[i].len < n
    ensures FreeWords(cs) <= FreeChunks(cs) * (n - 1)
  {
    if cs != [] {
      SmallFreeChunks(cs[1..], n);
      assert cs[0].used || cs[0].len < n;
    }
  }
}
