/** The dictionary of the spell checker (spell.c): a hash table of chained entries, each a
    lower-case word with a flag that says whether the word was ever added capitalized. */
module SpellDict {
  import opened Options
  import opened CText

  const MAX_WORD_LEN: nat := 256
  const HASH_SIZE: nat := 50000
  const UINT: nat := 0x1_0000_0000

  // ----- characters and words -----

  predicate IsUpper(c: char) {
    'A' <= c <= 'Z'
  }

  predicate IsLower(c: char) {
    'a' <= c <= 'z'
  }

  function LowerChar(c: char): char {
    if IsUpper(c) then c - 'A' + 'a' else c
  }

  /** to_lower. */
  function Lower(w: string): (r: string)
    ensures |r| == |w| && forall i :: 0 <= i < |w| ==> r[i] == LowerChar(w[i])
  {
    if w == [] then [] else [LowerChar(w[0])] + Lower(w[1..])
  }

  /** `isupper(word[0])`. */
  predicate Capitalized(w: string) {
    w != [] && IsUpper(w[0])
  }

  // ----- hashing -----

  function HashFrom(h: nat, w: string): nat
    decreases |w|
  {
    if w == [] then h else HashFrom((33 * h + w[0] as nat) % UINT, w[1..])
  }

  function Bucket(w: string): (b: nat)
    ensures b < HASH_SIZE
  {
    HashFrom(5381, w) % HASH_SIZE
  }

  /** The sum that djb2 stands for, without any wrap-around. */
  function Djb2(w: string): nat {
    if w == [] then 5381 else 33 * Djb2(w[..|w| - 1]) + w[|w| - 1] as nat
  }

  lemma {:induction false} HashFromLast(h: nat, w: string, c: char)
    ensures HashFrom(h, w + [c]) == (33 * HashFrom(h, w) + c as nat) % UINT
    decreases |w|
  {
    if w == [] {
      assert w + [c] == [c] && [c][1..] == [];
    } else {
      assert (w + [c])[1..] == w[1..] + [c];
      HashFromLast((33 * h + w[0] as nat) % UINT, w[1..], c);
    }
  }

  /** The bucket of a word is that sum, modulo 2^32 and the number of buckets; all the
      wrap-arounds in between do not matter. */
  lemma {:induction false} BucketIs(w: string)
    ensures HashFrom(5381, w) == Djb2(w) % UINT
    ensures Bucket(w) == Djb2(w) % UINT % HASH_SIZE
  {
    if w != [] {
      var init, c := w[..|w| - 1], w[|w| - 1];
      BucketIs(init);
      assert w == init + [c];
      HashFromLast(5381, init, c);
      hide HashFrom;
      Wraps33(Djb2(init), c as nat);
    }
  }

  lemma Wraps33(a: nat, b: nat)
    ensures (33 * (a % UINT) + b) % UINT == (33 * a + b) % UINT
  {
    var q := a / UINT;
    assert a == UINT * q + a % UINT;
    assert 33 * a + b == UINT * (33 * q) + (33 * (a % UINT) + b);
    Multiple(33 * q, 33 * (a % UINT) + b);
  }

  lemma {:induction false} Multiple(q: nat, r: nat)
    ensures (UINT * q + r) % UINT == r % UINT
  {
    if q > 0 {
      Multiple(q - 1, r);
      Wraps(UINT, UINT * (q - 1) + r);
      assert UINT * q + r == UINT + (UINT * (q - 1) + r);
    }
  }

  /** Wrapping around early does not change a sum modulo 2^32. */
  lemma Wraps(a: nat, b: nat)
    ensures (a % UINT + b) % UINT == (a + b) % UINT
  {
  }

  /** hash, in 32-bit arithmetic. */
  method Hash(w: string) returns (b: nat)
    ensures b == Bucket(w)
  {
    var hash: nat := 5381;
    assert w[0..] == w;
    for i := 0 to |w|
      invariant hash < UINT && HashFrom(hash, w[i..]) == HashFrom(5381, w)
    {
      assert w[i..][1..] == w[i + 1..];
      Wraps(32 * hash, hash + w[i] as nat);
      hash := ((hash * 32) % UINT + hash + w[i] as nat) % UINT;
    }
    return hash % HASH_SIZE;
  }

  // ----- what a sequence of additions means -----

  predicate IsTrue(flag: Option<bool>) {
    flag.Some? && flag.value
  }

  /** The entry that the words `added` leave for the lower-case word `w`: none, or whether
      one of its spellings was capitalized. */
  function Recorded(added: seq<string>, w: string): Option<bool> {
    if added == [] then None
    else
      var n := |added| - 1;
      var before := Recorded(added[..n], w);
      if Lower(added[n]) != w then before
      else Some(Capitalized(added[n]) || IsTrue(before))
  }

  /** dict_lookup after `added`. */
  predicate Accepts(added: seq<string>, word: string) {
    match Recorded(added, Lower(word))
    case None => false
    case Some(capital) => !capital || Capitalized(word)
  }

  /** `a` is a spelling of `word`, ignoring case. */
  predicate SameWord(a: string, word: string) {
    Lower(a) == Lower(word)
  }

  lemma {:induction false} RecordedMeaning(added: seq<string>, w: string)
    ensures Recorded(added, w).Some? <==> exists a <- added :: Lower(a) == w
    ensures IsTrue(Recorded(added, w)) <==> exists a <- added :: Lower(a) == w && Capitalized(a)
  {
    if added != [] {
      var n := |added| - 1;
      var init, last := added[..n], added[n];
      RecordedMeaning(init, w);
      RecordedLast(added, w);
      hide Recorded, Lower, Capitalized;
      assert last in added && forall a <- init :: a in added;
      forall a <- added ensures a == last || a in init {
        var i :| 0 <= i < |added| && added[i] == a;
        assert i < n ==> init[i] == a;
      }
    }
  }

  lemma {:induction false} RecordedLast(added: seq<string>, w: string)
    requires added != []
    ensures var n := |added| - 1;
            && (Lower(added[n]) != w ==> Recorded(added, w) == Recorded(added[..n], w))
            && (Lower(added[n]) == w ==>
                  Recorded(added, w) == Some(Capitalized(added[n]) || IsTrue(Recorded(added[..n], w))))
  {
  }

  /** dict_lookup accepts a word exactly when some added word equals it ignoring case and
      either no such word was added capitalized or the word itself is. */
  lemma LookupMeaning(added: seq<string>, word: string)
    ensures Accepts(added, word) <==>
            && (exists a <- added :: SameWord(a, word))
            && ((forall a <- added :: SameWord(a, word) ==> !Capitalized(a)) || Capitalized(word))
  {
    RecordedMeaning(added, Lower(word));
    hide Recorded, Lower, Capitalized;
    if Recorded(added, Lower(word)).Some? {
      var a :| a in added && Lower(a) == Lower(word);
      assert SameWord(a, word);
    }
    if IsTrue(Recorded(added, Lower(word))) {
      var a :| a in added && Lower(a) == Lower(word) && Capitalized(a);
      assert SameWord(a, word);
    }
  }

  /** The order and multiplicity of the additions do not matter. */
  lemma OrderIrrelevant(xs: seq<string>, ys: seq<string>, word: string)
    requires forall a :: a in xs <==> a in ys
    ensures Accepts(xs, word) == Accepts(ys, word)
  {
    LookupMeaning(xs, word);
    LookupMeaning(ys, word);
    hide Accepts, SameWord, Capitalized;
  }

  /** A word listed in lower case matches every spelling only as long as no capitalized
      spelling of it is listed too. */
  lemma LowercaseMatchesIff(added: seq<string>, a: string)
    requires a in added && !Capitalized(a)
    ensures (forall w :: SameWord(a, w) ==> Accepts(added, w)) <==>
            (forall b <- added :: SameWord(b, a) ==> !Capitalized(b))
  {
    hide Accepts, Capitalized;
    forall w ensures SameWord(a, w) ==>
        (Accepts(added, w) <==> (forall b <- added :: SameWord(b, a) ==> !Capitalized(b)) || Capitalized(w))
    {
      LookupMeaning(added, w);
    }
    assert SameWord(a, a);
  }

  /** With "foo" and "Foo" both listed, "foo" is reported. */
  lemma BothSpellingsListed()
    ensures !Accepts(["foo", "Foo"], "foo")
  {
    assert ["foo", "Foo"][..1] == ["foo"];
    assert Lower("Foo") == Lower("foo") == "foo";
  }

  // ----- chains -----

  datatype Entry = Entry(word: string, hasCapital: bool)

  /** The flag of a word's entry in a chain. */
  function Flag(chain: seq<Entry>, w: string): Option<bool> {
    if chain == [] then None
    else if chain[0].word == w then Some(chain[0].hasCapital)
    else Flag(chain[1..], w)
  }

  /** The chain after dict_add: the entry found is flagged, or a new one put first. */
  function Extended(chain: seq<Entry>, w: string, capital: bool): seq<Entry> {
    if Flag(chain, w).None? then [Entry(w, capital)] + chain
    else if capital then Flagged(chain, w)
    else chain
  }

  function Flagged(chain: seq<Entry>, w: string): seq<Entry> {
    if chain == [] then []
    else if chain[0].word == w then [Entry(w, true)] + chain[1..]
    else [chain[0]] + Flagged(chain[1..], w)
  }

  lemma {:induction false} FlaggedFacts(chain: seq<Entry>, w: string, v: string)
    ensures |Flagged(chain, w)| == |chain|
    ensures forall i :: 0 <= i < |chain| ==> Flagged(chain, w)[i].word == chain[i].word
    ensures Flag(Flagged(chain, w), v) == if v == w && Flag(chain, w).Some? then Some(true) else Flag(chain, v)
  {
    if chain != [] && chain[0].word != w {
      FlaggedFacts(chain[1..], w, v);
      assert Flagged(chain, w)[1..] == Flagged(chain[1..], w);
    }
  }

  /** Adding a word to its chain changes the flag of that word only. */
  lemma {:induction false} ExtendedFlag(chain: seq<Entry>, w: string, capital: bool, v: string)
    ensures Flag(Extended(chain, w, capital), v) ==
            if v != w then Flag(chain, v)
            else Some(capital || IsTrue(Flag(chain, w)))
  {
    FlaggedFacts(chain, w, v);
    var now := [Entry(w, capital)] + chain;
    assert now[0] == Entry(w, capital) && now[1..] == chain;
    assert Flag(now, v) == if v == w then Some(capital) else Flag(chain, v);
  }

  /** The position of a word's entry. */
  lemma {:induction false} FlagAt(chain: seq<Entry>, w: string, i: nat)
    requires i <= |chain| && forall j :: 0 <= j < i ==> chain[j].word != w
    ensures i < |chain| && chain[i].word == w ==>
              Flag(chain, w) == Some(chain[i].hasCapital) && Flagged(chain, w) == chain[i := Entry(w, true)]
    ensures i == |chain| ==> Flag(chain, w) == None
  {
    if i > 0 {
      assert forall j :: 0 <= j < i - 1 ==> chain[1..][j] == chain[j + 1];
      FlagAt(chain[1..], w, i - 1);
      if i < |chain| && chain[i].word == w {
        assert chain[i := Entry(w, true)][1..] == chain[1..][i - 1 := Entry(w, true)];
      }
    }
  }

  /** A chain holds only words that hash to its bucket, and no word twice. */
  ghost predicate GoodChain(chain: seq<Entry>, b: nat) {
    && (forall i :: 0 <= i < |chain| ==> Bucket(chain[i].word) == b)
    && (forall i, j :: 0 <= i < j < |chain| ==> chain[i].word != chain[j].word)
  }

  lemma ExtendedIsGood(chain: seq<Entry>, w: string, capital: bool)
    requires GoodChain(chain, Bucket(w))
    ensures GoodChain(Extended(chain, w, capital), Bucket(w))
  {
    if Flag(chain, w).None? {
      NotInChain(chain, w);
      ConsIsGood(chain, Entry(w, capital));
    } else if capital {
      FlaggedFacts(chain, w, w);
      SameWordsGood(chain, Flagged(chain, w), Bucket(w));
    }
  }

  lemma ConsIsGood(chain: seq<Entry>, e: Entry)
    requires GoodChain(chain, Bucket(e.word)) && forall i :: 0 <= i < |chain| ==> chain[i].word != e.word
    ensures GoodChain([e] + chain, Bucket(e.word))
  {
    hide Bucket;
    var now := [e] + chain;
    forall i | 0 <= i < |now| ensures Bucket(now[i].word) == Bucket(e.word) {
      assert i > 0 ==> now[i] == chain[i - 1];
    }
    forall i, j | 0 <= i < j < |now| ensures now[i].word != now[j].word {
      assert now[j] == chain[j - 1];
      assert i > 0 ==> now[i] == chain[i - 1];
    }
  }

  lemma SameWordsGood(chain: seq<Entry>, now: seq<Entry>, b: nat)
    requires GoodChain(chain, b) && |now| == |chain| && forall i :: 0 <= i < |chain| ==> now[i].word == chain[i].word
    ensures GoodChain(now, b)
  {
    hide Bucket;
    forall i | 0 <= i < |now| ensures Bucket(now[i].word) == b {
      assert Bucket(chain[i].word) == b;
    }
  }

  lemma {:induction false} NotInChain(chain: seq<Entry>, w: string)
    requires Flag(chain, w).None?
    ensures forall i :: 0 <= i < |chain| ==> chain[i].word != w
  {
    if chain != [] {
      NotInChain(chain[1..], w);
      forall i | 0 <= i < |chain| ensures chain[i].word != w {
        assert i > 0 ==> chain[i] == chain[1..][i - 1];
      }
    }
  }

  // ----- the table -----

  class Dict {
    const buckets: array<seq<Entry>>
    /** The words added so far, oldest first. */
    ghost var added: seq<string>

    ghost predicate Valid()
      reads this, buckets
    {
      && buckets.Length == HASH_SIZE
      && (forall b :: 0 <= b < HASH_SIZE ==> GoodChain(buckets[b], b))
      && (forall w: string :: Flag(buckets[Bucket(w)], w) == Recorded(added, w))
    }

    /** dict_create. */
    constructor ()
      ensures Valid() && fresh(buckets) && added == []
    {
      buckets := new seq<Entry>[HASH_SIZE](i => []);
      added := [];
    }

    /** dict_add, for a C string that fits the buffer. */
    method DictAdd(word: string)
      requires Valid() && NUL !in word && |word| < MAX_WORD_LEN
      modifies this, buckets
      ensures Valid() && added == old(added) + [word]
    {
      var lower := Lower(word);
      var h := Hash(lower);
      var chain := buckets[h];
      added := added + [word];
      ghost var goal := Extended(chain, lower, Capitalized(word));
      var curr := 0;
      while curr < |chain|
        invariant curr <= |chain| && forall j :: 0 <= j < curr ==> chain[j].word != lower
        invariant buckets[..] == old(buckets[..]) && added == old(added) + [word]
      {
        if chain[curr].word == lower {
          FlagAt(chain, lower, curr);
          if Capitalized(word) {
            buckets[h] := chain[curr := chain[curr].(hasCapital := true)];
          }
          AddedIsRecorded(old(buckets[..]), buckets[..], old(added), word);
          return;
        }
        curr := curr + 1;
      }
      FlagAt(chain, lower, curr);
      buckets[h] := [Entry(lower, Capitalized(word))] + chain;
      AddedIsRecorded(old(buckets[..]), buckets[..], old(added), word);
    }

    /** dict_lookup, for a C string that fits the buffer. */
    method DictLookup(word: string) returns (found: bool)
      requires Valid() && NUL !in word && |word| < MAX_WORD_LEN
      ensures found == Accepts(added, word)
    {
      var lower := Lower(word);
      var h := Hash(lower);
      var chain := buckets[h];
      assert Flag(chain, lower) == Recorded(added, lower);
      var curr := 0;
      while curr < |chain|
        invariant curr <= |chain| && forall j :: 0 <= j < curr ==> chain[j].word != lower
      {
        if chain[curr].word == lower {
          FlagAt(chain, lower, curr);
          if chain[curr].hasCapital {
            return Capitalized(word);
          }
          return true;
        }
        curr := curr + 1;
      }
      FlagAt(chain, lower, curr);
      return false;
    }
  }

  /** Extending the one chain keeps every chain good and records the new word. */
  lemma {:induction false} AddedIsRecorded(was: seq<seq<Entry>>, now: seq<seq<Entry>>, added: seq<string>, word: string)
    requires |was| == |now| == HASH_SIZE
    requires forall b :: 0 <= b < HASH_SIZE ==> GoodChain(was[b], b)
    requires forall w: string :: Flag(was[Bucket(w)], w) == Recorded(added, w)
    requires var h := Bucket(Lower(word)); now == was[h := Extended(was[h], Lower(word), Capitalized(word))]
    ensures forall b :: 0 <= b < HASH_SIZE ==> GoodChain(now[b], b)
    ensures forall w: string :: Flag(now[Bucket(w)], w) == Recorded(added + [word], w)
  {
    hide Bucket, Lower, Capitalized, Extended, GoodChain, Flag, Recorded;
    var lower := Lower(word);
    var h := Bucket(lower);
    ExtendedIsGood(was[h], lower, Capitalized(word));
    forall w: string ensures Flag(now[Bucket(w)], w) == Recorded(added + [word], w) {
      ExtendedFlag(was[h], lower, Capitalized(word), w);
      AddedLast(added, word, w);
      assert Flag(was[Bucket(w)], w) == Recorded(added, w);
    }
  }

  lemma {:induction false} AddedLast(added: seq<string>, word: string, w: string)
    ensures Recorded(added + [word], w) ==
            if Lower(word) != w then Recorded(added, w) else Some(Capitalized(word) || IsTrue(Recorded(added, w)))
  {
    hide Lower, Capitalized;
    assert (added + [word])[..|added|] == added;
    RecordedLast(added + [word], w);
  }
}
