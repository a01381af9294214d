/** The two streaming loops of spell.c: load_dictionary and check_file. Each is specified on
    the whole file, by positions; the loops see it in read buffers cut anywhere. */
module SpellScan {
  import opened CText
  import opened SpellDict

  // ----- characters -----

  predicate IsNewline(c: char) {
    c == '\n'
  }

  predicate IsAlpha(c: char) {
    IsUpper(c) || IsLower(c)
  }

  predicate IsAlnum(c: char) {
    IsAlpha(c) || IsDigit(c)
  }

  predicate IsOpening(c: char) {
    c == '(' || c == '[' || c == '{' || c == '\'' || c == '"'
  }

  // ----- normalizing words -----

  function DropOpening(w: string): string {
    if w != [] && IsOpening(w[0]) then DropOpening(w[1..]) else w
  }

  function DropTrailing(w: string): string {
    if w != [] && !IsAlnum(w[|w| - 1]) then DropTrailing(w[..|w| - 1]) else w
  }

  /** normalize_word. */
  function Normalize(w: string): string {
    DropTrailing(DropOpening(w))
  }

  /** The negation of should_skip_word. */
  predicate HasLetter(w: string) {
    exists i :: 0 <= i < |w| && IsAlpha(w[i])
  }

  lemma {:induction false} DropOpeningFacts(w: string)
    ensures HasLetter(w) ==> HasLetter(DropOpening(w))
    ensures DropOpening(w) != [] ==> !IsOpening(DropOpening(w)[0])
    ensures |DropOpening(w)| <= |w| && DropOpening(w) == w[|w| - |DropOpening(w)|..]
  {
    if w != [] && IsOpening(w[0]) {
      if HasLetter(w) {
        var i :| 0 <= i < |w| && IsAlpha(w[i]);
        assert w[1..][i - 1] == w[i];
      }
      DropOpeningFacts(w[1..]);
    }
  }

  lemma {:induction false} DropTrailingFacts(w: string)
    ensures HasLetter(w) ==> DropTrailing(w) != []
    ensures DropTrailing(w) != [] ==> IsAlnum(DropTrailing(w)[|DropTrailing(w)| - 1])
    ensures DropTrailing(w) <= w
  {
    if w != [] && !IsAlnum(w[|w| - 1]) {
      var init := w[..|w| - 1];
      if HasLetter(w) {
        var i :| 0 <= i < |w| && IsAlpha(w[i]);
        assert init[i] == w[i];
      }
      DropTrailingFacts(init);
    }
  }

  /** normalize_word is idempotent, and never empties a word that has a letter; what it
      returns starts with no opening punctuation and ends in a letter or digit. */
  lemma NormalizeFacts(w: string)
    ensures Normalize(Normalize(w)) == Normalize(w)
    ensures HasLetter(w) ==> Normalize(w) != []
    ensures Normalize(w) != [] ==> !IsOpening(Normalize(w)[0]) && IsAlnum(Normalize(w)[|Normalize(w)| - 1])
    ensures |Normalize(w)| <= |w| && forall c <- Normalize(w) :: c in w
  {
    DropOpeningFacts(w);
    DropTrailingFacts(DropOpening(w));
    var o := DropOpening(w);
    assert forall c <- o :: c in w by {
      assert forall i :: 0 <= i < |o| ==> o[i] == w[|w| - |o| + i];
    }
  }

  /** What normalizing leaves: the word from the first character that is no opening
      punctuation to the last one that is a letter or digit. */
  lemma NormalizeIs(w: string) returns (a: nat, b: nat)
    ensures a <= b <= |w| && Normalize(w) == w[a..b]
    ensures (forall k :: 0 <= k < a ==> IsOpening(w[k])) && (a < |w| ==> !IsOpening(w[a]))
    ensures (forall k :: b <= k < |w| ==> !IsAlnum(w[k])) && (a < b ==> IsAlnum(w[b - 1]))
  {
    a := OpeningLength(w);
    var n := TrailingFrom(w[a..]);
    b := a + n;
    DropOpeningAt(w, a);
    DropTrailingAt(w[a..], n);
    forall k | b <= k < |w| ensures !IsAlnum(w[k]) {
      assert w[a..][k - a] == w[k];
    }
  }

  lemma {:induction false} OpeningLength(w: string) returns (a: nat)
    ensures a <= |w| && (forall k :: 0 <= k < a ==> IsOpening(w[k])) && (a < |w| ==> !IsOpening(w[a]))
  {
    if w == [] || !IsOpening(w[0]) {
      a := 0;
    } else {
      var n := OpeningLength(w[1..]);
      a := n + 1;
      assert forall k :: 0 < k < a ==> w[k] == w[1..][k - 1];
    }
  }

  lemma {:induction false} TrailingFrom(w: string) returns (b: nat)
    ensures b <= |w| && (forall k :: b <= k < |w| ==> !IsAlnum(w[k])) && (b > 0 ==> IsAlnum(w[b - 1]))
    decreases |w|
  {
    if w == [] || IsAlnum(w[|w| - 1]) {
      b := |w|;
    } else {
      b := TrailingFrom(w[..|w| - 1]);
    }
  }

  lemma {:induction false} DropOpeningAt(w: string, start: nat)
    requires start <= |w| && (forall i :: 0 <= i < start ==> IsOpening(w[i]))
    requires start < |w| ==> !IsOpening(w[start])
    ensures DropOpening(w) == w[start..]
  {
    if start > 0 {
      DropOpeningAt(w[1..], start - 1);
      assert w[1..][start - 1..] == w[start..];
    } else {
      assert w[0..] == w;
    }
  }

  lemma {:induction false} DropTrailingAt(w: string, end: nat)
    requires end <= |w| && (forall i :: end <= i < |w| ==> !IsAlnum(w[i]))
    requires end > 0 ==> IsAlnum(w[end - 1])
    ensures DropTrailing(w) == w[..end]
    decreases |w|
  {
    hide IsAlnum;
    if end < |w| {
      DropTrailingAt(w[..|w| - 1], end);
      assert w[..|w| - 1][..end] == w[..end];
    } else {
      assert w[..end] == w;
    }
  }

  method ShouldSkipWord(word: string) returns (skip: bool)
    ensures skip == !HasLetter(word)
  {
    var has_letter := false;
    for i := 0 to |word|
      invariant !has_letter && forall k :: 0 <= k < i ==> !IsAlpha(word[k])
    {
      if IsAlpha(word[i]) {
        return false;
      }
    }
    return !has_letter;
  }

  method NormalizeWord(src: string) returns (dest: string)
    ensures dest == Normalize(src)
  {
    hide IsOpening, IsAlnum, DropOpening, DropTrailing;
    var start := 0;
    var len := |src|;
    while start < len && IsOpening(src[start])
      invariant start <= len && forall i :: 0 <= i < start ==> IsOpening(src[i])
    {
      start := start + 1;
    }
    DropOpeningAt(src, start);
    var end := len - 1;
    while end >= start && !IsAlnum(src[end])
      invariant start - 1 <= end < len && forall i :: end < i < len ==> !IsAlnum(src[i])
    {
      end := end - 1;
    }
    DropTrailingAt(src[start..], end + 1 - start);
    dest := "";
    for i := start to end + 1
      invariant dest == src[start..i]
    {
      dest := dest + [src[i]];
    }
    assert src[start..][..end + 1 - start] == src[start..end + 1];
  }

  // ----- words of a whole file, by position -----

  type Separator = char -> bool

  /** A word starts at `i`. */
  predicate StartsAt(sep: Separator, s: string, i: nat) {
    i < |s| && !sep(s[i]) && (i == 0 || sep(s[i - 1]))
  }

  /** Where the word around `i` ends. */
  function EndOf(sep: Separator, s: string, i: nat): (e: nat)
    requires i <= |s|
    ensures i <= e <= |s| && (forall k :: i <= k < e ==> !sep(s[k])) && (e < |s| ==> sep(s[e]))
    decreases |s| - i
  {
    if i == |s| || sep(s[i]) then i else EndOf(sep, s, i + 1)
  }

  lemma {:induction false} EndOfIs(sep: Separator, s: string, i: nat, e: nat)
    requires i <= e <= |s| && (forall k :: i <= k < e ==> !sep(s[k])) && (e < |s| ==> sep(s[e]))
    ensures EndOf(sep, s, i) == e
    decreases e - i
  {
    if i < e {
      EndOfIs(sep, s, i + 1, e);
    }
  }

  /** The end of a word that starts at `i`, when at most 255 characters are kept. */
  function Cut(i: nat, e: nat): nat {
    if e <= i + (MAX_WORD_LEN - 1) then e else i + (MAX_WORD_LEN - 1)
  }

  /** The word that starts at `i`, cut to 255 characters, as a C string. */
  function WordAt(sep: Separator, s: string, i: nat): (w: string)
    requires i <= |s|
    ensures |w| < MAX_WORD_LEN && NUL !in w
  {
    var e := EndOf(sep, s, i);
    CStr(s[i..Cut(i, e)])
  }

  /** 1 plus the newlines before position `i`. */
  function LineOf(s: string, i: nat): nat
    requires i <= |s|
  {
    if i == 0 then 1 else LineOf(s, i - 1) + if s[i - 1] == '\n' then 1 else 0
  }

  /** 1 plus the characters between the last newline and position `i`. */
  function ColumnOf(s: string, i: nat): nat
    requires i <= |s|
  {
    if i == 0 || s[i - 1] == '\n' then 1 else ColumnOf(s, i - 1) + 1
  }

  // ----- the dictionary file -----

  /** The lines that start before position `n`, empty ones excepted. */
  function LinesBefore(s: string, n: nat): seq<string>
    requires n <= |s|
  {
    if n == 0 then []
    else LinesBefore(s, n - 1) + if StartsAt(IsNewline, s, n - 1) then [WordAt(IsNewline, s, n - 1)] else []
  }

  // ----- the reports -----

  datatype Report = Report(line: nat, column: nat, word: string)

  /** What is reported of a word against the dictionary `added`. */
  function Verdict(added: seq<string>, w: string, line: nat, column: nat): seq<Report> {
    if !HasLetter(w) || Accepts(added, Normalize(w)) then [] else [Report(line, column, Normalize(w))]
  }

  /** What is reported of the word that starts at `i`. */
  function ReportsAt(added: seq<string>, s: string, i: nat): seq<Report>
    requires i <= |s|
  {
    Verdict(added, WordAt(IsSpace, s, i), LineOf(s, i), ColumnOf(s, i))
  }

  /** The reports of the words that start before position `n`, in order. */
  function ReportsBefore(added: seq<string>, s: string, n: nat): seq<Report>
    requires n <= |s|
  {
    if n == 0 then []
    else ReportsBefore(added, s, n - 1) + if StartsAt(IsSpace, s, n - 1) then ReportsAt(added, s, n - 1) else []
  }

  /** The whole input. */
  function Flat(buffers: seq<string>): string {
    if buffers == [] then "" else buffers[0] + Flat(buffers[1..])
  }

  /** One buffer is its own file, and reading on appends. */
  lemma {:induction false} FlatAppends(a: seq<string>, b: seq<string>, s: string)
    ensures Flat([s]) == s
    ensures Flat(a + b) == Flat(a) + Flat(b)
    decreases |a|
  {
    if a == [] {
      assert a + b == b;
    } else {
      FlatAppends(a[1..], b, s);
      assert (a + b)[1..] == a[1..] + b;
      assert a[0] + (Flat(a[1..]) + Flat(b)) == (a[0] + Flat(a[1..])) + Flat(b);
    }
  }

  // ----- what the words and the reports mean -----

  /** The word at a start: everything up to the next separator or the end of the file, of that
      the first 255 characters, of those what precedes any NUL. */
  lemma WordAtIs(sep: Separator, s: string, i: nat) returns (e: nat)
    requires StartsAt(sep, s, i)
    ensures i < e <= |s| && (forall k :: i <= k < e ==> !sep(s[k])) && (e < |s| ==> sep(s[e]))
    ensures WordAt(sep, s, i) == CStr(if e - i <= 255 then s[i..e] else s[i..i + 255])
  {
    hide EndOf, CStr;
    e := EndOf(sep, s, i);
    WordAtCut(sep, s, i);
  }

  lemma {:induction false} WordAtCut(sep: Separator, s: string, i: nat)
    requires i <= |s|
    ensures var e := EndOf(sep, s, i); WordAt(sep, s, i) == CStr(if e - i <= 255 then s[i..e] else s[i..i + 255])
  {
    hide EndOf, CStr;
  }

  predicate Increasing(ps: seq<nat>) {
    forall j, k :: 0 <= j < k < |ps| ==> ps[j] < ps[k]
  }

  lemma IncreasingLast(ps: seq<nat>, i: nat)
    requires Increasing(ps) && forall p <- ps :: p < i
    ensures Increasing(ps + [i])
  {
    forall j, k | 0 <= j < k < |ps + [i]| ensures (ps + [i])[j] < (ps + [i])[k] {
      assert (ps + [i])[j] == ps[j] && ps[j] in ps;
    }
  }

  /** The dictionary accepts the word, in terms of the words in it: one of them equals it
      ignoring case, and it has a capital if one of those does. */
  ghost predicate Known(added: seq<string>, w: string) {
    && (exists a <- added :: SameWord(a, w))
    && ((forall a <- added :: SameWord(a, w) ==> !Capitalized(a)) || Capitalized(w))
  }

  /** At `i` starts a word that has a letter, and its normal form is not in the dictionary. */
  ghost predicate Misspelled(added: seq<string>, s: string, i: nat) {
    && StartsAt(IsSpace, s, i) && HasLetter(WordAt(IsSpace, s, i))
    && !Known(added, Normalize(WordAt(IsSpace, s, i)))
  }

  /** The newlines before position `i`. */
  function Newlines(s: string, i: nat): set<nat>
    requires i <= |s|
  {
    set k | 0 <= k < i && s[k] == '\n'
  }

  /** `column` counts the characters from the last newline before `i`, or from the start of the
      file, up to and with `i`. */
  predicate IsColumn(s: string, i: nat, column: nat)
    requires i <= |s|
  {
    && 1 <= column <= i + 1
    && (forall k :: i + 1 - column <= k < i ==> s[k] != '\n')
    && (column <= i ==> s[i - column] == '\n')
  }

  /** The report is that of the word at `i`. */
  ghost predicate IsReport(s: string, i: nat, r: Report) {
    && i <= |s| && r.line == 1 + |Newlines(s, i)| && IsColumn(s, i, r.column)
    && r.word == Normalize(WordAt(IsSpace, s, i))
  }

  /** The reports are those of the misspelled words that start before `n`, one for each, in the
      order of the file. */
  ghost predicate ListsMisspelled(added: seq<string>, s: string, n: nat, reports: seq<Report>) {
    exists ps: seq<nat> :: ListedAt(added, s, n, reports, ps)
  }

  ghost predicate ListedAt(added: seq<string>, s: string, n: nat, reports: seq<Report>, ps: seq<nat>) {
    && Increasing(ps) && |ps| == |reports|
    && (forall i: nat :: i in ps <==> i < n && Misspelled(added, s, i))
    && forall k :: 0 <= k < |ps| ==> IsReport(s, ps[k], reports[k])
  }

  lemma {:induction false} LineCounts(s: string, i: nat)
    requires i <= |s|
    ensures LineOf(s, i) == 1 + |Newlines(s, i)|
    decreases i
  {
    if i > 0 {
      LineCounts(s, i - 1);
      if s[i - 1] == '\n' {
        assert Newlines(s, i) == Newlines(s, i - 1) + {i - 1};
      } else {
        assert Newlines(s, i) == Newlines(s, i - 1);
      }
    }
  }

  lemma {:induction false} ColumnCounts(s: string, i: nat)
    requires i <= |s|
    ensures IsColumn(s, i, ColumnOf(s, i))
    decreases i
  {
    if i > 0 && s[i - 1] != '\n' {
      ColumnCounts(s, i - 1);
    }
  }

  lemma ColumnIsOne(s: string, i: nat, c: nat, d: nat)
    requires i <= |s| && IsColumn(s, i, c) && IsColumn(s, i, d)
    ensures c == d
  {
  }

  /** A word is reported exactly when it has a letter and its normal form is not known. */
  lemma VerdictIff(added: seq<string>, w: string, line: nat, column: nat)
    ensures Verdict(added, w, line, column) ==
            if HasLetter(w) && !Known(added, Normalize(w)) then [Report(line, column, Normalize(w))] else []
  {
    LookupMeaning(added, Normalize(w));
  }

  lemma ReportsNext(added: seq<string>, s: string, n: nat)
    requires 0 < n <= |s|
    ensures Misspelled(added, s, n - 1) ==>
              exists r :: IsReport(s, n - 1, r) && ReportsBefore(added, s, n) == ReportsBefore(added, s, n - 1) + [r]
    ensures !Misspelled(added, s, n - 1) ==> ReportsBefore(added, s, n) == ReportsBefore(added, s, n - 1)
  {
    hide Known, Normalize, HasLetter, Verdict, WordAt;
    var w := WordAt(IsSpace, s, n - 1);
    VerdictIff(added, w, LineOf(s, n - 1), ColumnOf(s, n - 1));
    LineCounts(s, n - 1);
    ColumnCounts(s, n - 1);
    if Misspelled(added, s, n - 1) {
      assert IsReport(s, n - 1, Report(LineOf(s, n - 1), ColumnOf(s, n - 1), Normalize(w)));
    }
  }

  lemma {:induction false} ReportsAreListed(added: seq<string>, s: string, n: nat)
    requires n <= |s|
    ensures ListsMisspelled(added, s, n, ReportsBefore(added, s, n))
    decreases n
  {
    if n == 0 {
      var ps: seq<nat> := [];
      assert ListedAt(added, s, 0, [], ps);
    } else {
      hide Misspelled, IsReport, ReportsBefore;
      ReportsAreListed(added, s, n - 1);
      var reports := ReportsBefore(added, s, n - 1);
      var ps: seq<nat> :| ListedAt(added, s, n - 1, reports, ps);
      ReportsNext(added, s, n);
      if Misspelled(added, s, n - 1) {
        var r :| IsReport(s, n - 1, r) && ReportsBefore(added, s, n) == reports + [r];
        OneMoreListed(added, s, n, reports, ps, r);
      } else {
        NoneMoreListed(added, s, n, reports, ps);
      }
    }
  }

  lemma OneMoreListed(added: seq<string>, s: string, n: nat, reports: seq<Report>, ps: seq<nat>, r: Report)
    requires 0 < n && ListedAt(added, s, n - 1, reports, ps)
    requires Misspelled(added, s, n - 1) && IsReport(s, n - 1, r)
    ensures ListedAt(added, s, n, reports + [r], ps + [n - 1])
  {
    hide Misspelled, IsReport, Increasing;
    IncreasingLast(ps, n - 1);
  }

  lemma NoneMoreListed(added: seq<string>, s: string, n: nat, reports: seq<Report>, ps: seq<nat>)
    requires 0 < n && ListedAt(added, s, n - 1, reports, ps) && !Misspelled(added, s, n - 1)
    ensures ListedAt(added, s, n, reports, ps)
  {
    hide Misspelled, IsReport, Increasing;
  }

  /** A report is in such a list exactly when it is that of a misspelled word. */
  lemma ListedIff(added: seq<string>, s: string, reports: seq<Report>, r: Report)
    requires ListsMisspelled(added, s, |s|, reports)
    ensures r in reports <==> exists i :: Misspelled(added, s, i) && IsReport(s, i, r)
  {
    hide Misspelled, IsReport, Increasing;
    var ps: seq<nat> :| ListedAt(added, s, |s|, reports, ps);
    if r in reports {
      var k :| 0 <= k < |reports| && reports[k] == r;
      assert ps[k] in ps;
    }
    if i: nat :| Misspelled(added, s, i) && IsReport(s, i, r) {
      StartInside(added, s, i);
      var k :| 0 <= k < |ps| && ps[k] == i;
      OneReport(s, i, r, reports[k]);
    }
  }

  lemma StartInside(added: seq<string>, s: string, i: nat)
    requires Misspelled(added, s, i)
    ensures i < |s|
  {
  }

  lemma OneReport(s: string, i: nat, r: Report, q: Report)
    requires IsReport(s, i, r) && IsReport(s, i, q)
    ensures r == q
  {
    hide IsColumn;
    ColumnIsOne(s, i, r.column, q.column);
  }

  /** The lines that are not empty and start before `n`, one after another. */
  ghost predicate ListsLines(s: string, n: nat, lines: seq<string>) {
    exists ps: seq<nat> :: LinesAt(s, n, lines, ps)
  }

  ghost predicate LinesAt(s: string, n: nat, lines: seq<string>, ps: seq<nat>) {
    && Increasing(ps) && |ps| == |lines|
    && (forall i: nat :: i in ps <==> i < n && StartsAt(IsNewline, s, i))
    && forall k :: 0 <= k < |ps| ==> ps[k] <= |s| && lines[k] == WordAt(IsNewline, s, ps[k])
  }

  lemma {:induction false} LinesAreListed(s: string, n: nat)
    requires n <= |s|
    ensures ListsLines(s, n, LinesBefore(s, n))
    decreases n
  {
    hide WordAt, Increasing;
    if n == 0 {
      NoLines(s);
    } else {
      LinesAreListed(s, n - 1);
      var ps: seq<nat> :| LinesAt(s, n - 1, LinesBefore(s, n - 1), ps);
      if StartsAt(IsNewline, s, n - 1) {
        IncreasingLast(ps, n - 1);
        assert LinesAt(s, n, LinesBefore(s, n), ps + [n - 1]);
      } else {
        assert LinesAt(s, n, LinesBefore(s, n), ps);
      }
    }
  }

  lemma {:induction false} NoLines(s: string)
    ensures ListsLines(s, 0, LinesBefore(s, 0))
  {
    var ps: seq<nat> := [];
    assert LinesAt(s, 0, [], ps);
  }

  // ----- the state of a scanning loop -----

  /** After `p` characters, the last word started at `a` and `word` is what is kept of it;
      between words `word` is empty. */
  ghost predicate Scanning(sep: Separator, s: string, p: nat, a: nat, word: string) {
    && a <= p <= |s|
    && if word == "" then a == p && (p == 0 || sep(s[p - 1]))
       else StartsAt(sep, s, a) && a < p && (forall k :: a <= k < p ==> !sep(s[k])) && word == s[a..Cut(a, p)]
  }

  /** A character is kept as long as the buffer has room for it and the closing NUL. */
  function Longer(word: string, c: char): string {
    if |word| < MAX_WORD_LEN - 1 then word + [c] else word
  }

  lemma ScanChar(sep: Separator, s: string, p: nat, a: nat, word: string)
    requires Scanning(sep, s, p, a, word) && p < |s| && !sep(s[p])
    ensures Scanning(sep, s, p + 1, a, Longer(word, s[p]))
  {
    if word == "" {
      assert s[a..Cut(a, p + 1)] == [s[p]];
    } else {
      assert |word| == Cut(a, p) - a;
      assert s[a..Cut(a, p + 1)] == Longer(word, s[p]);
    }
  }

  /** At the end of a word, what was kept is the word. */
  lemma {:induction false} ScanEnd(sep: Separator, s: string, p: nat, a: nat, word: string)
    requires Scanning(sep, s, p, a, word) && word != "" && (p < |s| ==> sep(s[p]))
    ensures WordAt(sep, s, a) == CStr(word)
  {
    EndOfIs(sep, s, a, p);
  }

  /** No word starts inside a word or at its end. */
  lemma {:induction false} ReportsInWord(added: seq<string>, s: string, p: nat, a: nat)
    requires a < p <= |s| && StartsAt(IsSpace, s, a) && forall k :: a <= k < p ==> !IsSpace(s[k])
    ensures ReportsBefore(added, s, p) == ReportsBefore(added, s, a) + ReportsAt(added, s, a)
    decreases p
  {
    hide ReportsAt, IsSpace;
    if a + 1 < p {
      ReportsInWord(added, s, p - 1, a);
    }
  }

  lemma {:induction false} LinesInLine(s: string, p: nat, a: nat)
    requires a < p <= |s| && StartsAt(IsNewline, s, a) && forall k :: a <= k < p ==> !IsNewline(s[k])
    ensures LinesBefore(s, p) == LinesBefore(s, a) + [WordAt(IsNewline, s, a)]
    decreases p
  {
    if a + 1 < p {
      LinesInLine(s, p - 1, a);
    }
  }

  // ----- load_dictionary -----

  /** The buffers from buffer `b` on hold the file from position `p` on. */
  ghost predicate Ahead(s: string, p: nat, buffers: seq<string>, b: nat) {
    p <= |s| && b <= |buffers| && s[p..] == Flat(buffers[b..])
  }

  /** The same in the middle of buffer `b`. */
  ghost predicate AheadIn(s: string, p: nat, buffers: seq<string>, b: nat, i: nat) {
    p <= |s| && b < |buffers| && i <= |buffers[b]| && s[p..] == buffers[b][i..] + Flat(buffers[b + 1..])
  }

  lemma {:induction false} AheadStarts(buffers: seq<string>)
    ensures Ahead(Flat(buffers), 0, buffers, 0)
  {
    assert buffers[0..] == buffers && Flat(buffers)[0..] == Flat(buffers);
  }

  lemma EnterBuffer(s: string, p: nat, buffers: seq<string>, b: nat)
    requires Ahead(s, p, buffers, b) && b < |buffers|
    ensures AheadIn(s, p, buffers, b, 0)
  {
    assert buffers[b..][1..] == buffers[b + 1..] && buffers[b][0..] == buffers[b];
  }

  lemma NextChar(s: string, p: nat, buffers: seq<string>, b: nat, i: nat)
    requires AheadIn(s, p, buffers, b, i) && i < |buffers[b]|
    ensures p < |s| && s[p] == buffers[b][i] && AheadIn(s, p + 1, buffers, b, i + 1)
  {
    assert s[p..][0] == s[p];
    assert s[p..][1..] == s[p + 1..];
  }

  lemma LeaveBuffer(s: string, p: nat, buffers: seq<string>, b: nat)
    requires b < |buffers| && AheadIn(s, p, buffers, b, |buffers[b]|)
    ensures Ahead(s, p, buffers, b + 1)
  {
    assert buffers[b][|buffers[b]|..] == "";
  }

  lemma Exhausted(s: string, p: nat, buffers: seq<string>)
    requires Ahead(s, p, buffers, |buffers|)
    ensures p == |s|
  {
    assert buffers[|buffers|..] == [];
  }

  ghost predicate Loading(s: string, p: nat, a: nat, word: string, added: seq<string>) {
    Scanning(IsNewline, s, p, a, word) && added == LinesBefore(s, a)
  }

  lemma LoadingChar(s: string, p: nat, a: nat, word: string, added: seq<string>)
    requires Loading(s, p, a, word, added) && p < |s| && s[p] != '\n'
    ensures Loading(s, p + 1, a, Longer(word, s[p]), added)
  {
    ScanChar(IsNewline, s, p, a, word);
  }

  lemma {:induction false} LoadingWord(s: string, p: nat, a: nat, word: string, added: seq<string>)
    requires Loading(s, p, a, word, added) && (p < |s| ==> s[p] == '\n')
    ensures LinesBefore(s, p) == if word == "" then added else added + [CStr(word)]
  {
    if word != "" {
      ScanEnd(IsNewline, s, p, a, word);
      LinesInLine(s, p, a);
    }
  }

  lemma {:induction false} LoadingNewline(s: string, p: nat, a: nat, word: string, added: seq<string>)
    requires Loading(s, p, a, word, added) && p < |s| && s[p] == '\n'
    ensures word == "" ==> Loading(s, p + 1, p + 1, "", added)
    ensures word != "" ==> Loading(s, p + 1, p + 1, "", added + [CStr(word)])
  {
    LoadingWord(s, p, a, word, added);
  }

  /** load_dictionary: `buffers` is what successive calls of read() return. The dictionary
      holds the lines of the whole file. */
  method LoadDictionary(buffers: seq<string>) returns (dictionary: Dict)
    ensures fresh(dictionary) && fresh(dictionary.buckets) && dictionary.Valid()
    ensures dictionary.added == LinesBefore(Flat(buffers), |Flat(buffers)|)
    ensures ListsLines(Flat(buffers), |Flat(buffers)|, dictionary.added)
  {
    hide ListsLines, Loading, LinesBefore, Flat, Ahead, AheadIn, CStr, Dict.Valid;
    ghost var s := Flat(buffers);
    dictionary := new Dict();
    var word := "";
    ghost var p: nat, a: nat := 0, 0;
    AheadStarts(buffers);
    LoadingStarts(s);
    for b := 0 to |buffers|
      invariant fresh(dictionary) && fresh(dictionary.buckets) && dictionary.Valid()
      invariant Ahead(s, p, buffers, b) && |word| < MAX_WORD_LEN
      invariant Loading(s, p, a, word, dictionary.added)
    {
      var buffer := buffers[b];
      EnterBuffer(s, p, buffers, b);
      for i := 0 to |buffer|
        invariant fresh(dictionary) && fresh(dictionary.buckets) && dictionary.Valid()
        invariant AheadIn(s, p, buffers, b, i) && |word| < MAX_WORD_LEN
        invariant Loading(s, p, a, word, dictionary.added)
      {
        NextChar(s, p, buffers, b, i);
        if buffer[i] == '\n' {
          LoadingNewline(s, p, a, word, dictionary.added);
          if |word| > 0 {
            dictionary.DictAdd(CStr(word));
            word := "";
          }
          a := p + 1;
        } else {
          LoadingChar(s, p, a, word, dictionary.added);
          if |word| < MAX_WORD_LEN - 1 {
            word := word + [buffer[i]];
          }
        }
        p := p + 1;
      }
      LeaveBuffer(s, p, buffers, b);
    }
    Exhausted(s, p, buffers);
    LoadingWord(s, p, a, word, dictionary.added);
    if |word| > 0 {
      dictionary.DictAdd(CStr(word));
    }
    LinesAreListed(s, |s|);
  }

  lemma LoadingStarts(s: string)
    ensures Loading(s, 0, 0, "", [])
  {
  }

  // ----- check_file -----

  /** What is reported of the word kept so far, if there is one. */
  function VerdictOn(added: seq<string>, word: string, line: nat, word_col: nat): seq<Report> {
    if word == "" then [] else Verdict(added, CStr(word), line, word_col)
  }

  /** The end of a word, if one was being read: skip, normalize, look up, report. */
  method CheckWord(dictionary: Dict, buffer: string, line: nat, word_col: nat) returns (reports: seq<Report>)
    requires dictionary.Valid() && |buffer| < MAX_WORD_LEN
    ensures reports == VerdictOn(dictionary.added, buffer, line, word_col)
    ensures var w := CStr(buffer);
            reports == if HasLetter(w) && !Known(dictionary.added, Normalize(w))
                       then [Report(line, word_col, Normalize(w))] else []
  {
    VerdictIff(dictionary.added, CStr(buffer), line, word_col);
    reports := [];
    if |buffer| > 0 {
      var word := CStr(buffer);
      var skip := ShouldSkipWord(word);
      if !skip {
        var normalized := NormalizeWord(word);
        NormalizeFacts(word);
        if normalized != "" {
          var found := dictionary.DictLookup(normalized);
          if !found {
            reports := [Report(line, word_col, normalized)];
          }
        }
      }
    }
  }

  /** The variables of check_file after `p` characters, the last word having started at `a`. */
  ghost predicate Checking(added: seq<string>, s: string, p: nat, a: nat, word: string,
                           line: nat, col: nat, word_col: nat, reports: seq<Report>) {
    && Scanning(IsSpace, s, p, a, word)
    && line == LineOf(s, p) == LineOf(s, a) && col == ColumnOf(s, p)
    && (word != "" ==> word_col == ColumnOf(s, a))
    && reports == ReportsBefore(added, s, a)
  }

  lemma CheckingStarts(added: seq<string>, s: string)
    ensures Checking(added, s, 0, 0, "", 1, 1, 1, [])
  {
  }

  /** A character of a word. */
  lemma CheckingChar(added: seq<string>, s: string, p: nat, a: nat, word: string,
                     line: nat, col: nat, word_col: nat, reports: seq<Report>)
    requires Checking(added, s, p, a, word, line, col, word_col, reports) && p < |s| && !IsSpace(s[p])
    ensures Checking(added, s, p + 1, a, Longer(word, s[p]),
                     line, col + 1, if word == "" then col else word_col, reports)
  {
    ScanChar(IsSpace, s, p, a, word);
    hide ReportsBefore;
  }

  lemma {:induction false} CheckingWord(added: seq<string>, s: string, p: nat, a: nat, word: string,
                     line: nat, col: nat, word_col: nat, reports: seq<Report>)
    requires Checking(added, s, p, a, word, line, col, word_col, reports) && (p < |s| ==> IsSpace(s[p]))
    ensures reports + VerdictOn(added, word, line, word_col) == ReportsBefore(added, s, p)
  {
    if word != "" {
      ScanEnd(IsSpace, s, p, a, word);
      ReportsInWord(added, s, p, a);
      hide ReportsBefore, WordAt, Verdict;
    }
  }

  /** White space: a word may end, and the position moves on. */
  lemma CheckingSpace(added: seq<string>, s: string, p: nat, a: nat, word: string,
                      line: nat, col: nat, word_col: nat, reports: seq<Report>)
    requires Checking(added, s, p, a, word, line, col, word_col, reports) && p < |s| && IsSpace(s[p])
    ensures Checking(added, s, p + 1, p + 1, "",
                     if s[p] == '\n' then line + 1 else line, if s[p] == '\n' then 1 else col + 1,
                     word_col, reports + VerdictOn(added, word, line, word_col))
  {
    CheckingWord(added, s, p, a, word, line, col, word_col, reports);
    hide VerdictOn, ReportsAt;
  }

  /** check_file: `buffers` is what successive calls of read() return; the reports printed,
      and whether an error was found. They depend on the whole input only, not on how it is
      cut into buffers. */
  method CheckFile(dictionary: Dict, buffers: seq<string>) returns (reports: seq<Report>, error_found: bool)
    requires dictionary.Valid()
    ensures reports == ReportsBefore(dictionary.added, Flat(buffers), |Flat(buffers)|)
    ensures ListsMisspelled(dictionary.added, Flat(buffers), |Flat(buffers)|, reports)
    ensures forall r :: r in reports <==>
              exists i :: Misspelled(dictionary.added, Flat(buffers), i) && IsReport(Flat(buffers), i, r)
    ensures error_found <==> |reports| > 0
  {
    hide ListsMisspelled, Misspelled, IsReport, Known, Checking, ReportsBefore, VerdictOn;
    hide Flat, Ahead, AheadIn, CStr, IsSpace, Dict.Valid;
    ghost var s := Flat(buffers);
    ghost var added := dictionary.added;
    reports, error_found := [], false;
    var word := "";
    var line, col, word_col := 1, 1, 1;
    ghost var p: nat, a: nat := 0, 0;
    AheadStarts(buffers);
    CheckingStarts(added, s);
    for b := 0 to |buffers|
      invariant Ahead(s, p, buffers, b)
      invariant Checking(added, s, p, a, word, line, col, word_col, reports) && (error_found <==> |reports| > 0)
      invariant |word| < MAX_WORD_LEN
    {
      var buffer := buffers[b];
      EnterBuffer(s, p, buffers, b);
      for i := 0 to |buffer|
        invariant AheadIn(s, p, buffers, b, i)
        invariant Checking(added, s, p, a, word, line, col, word_col, reports) && (error_found <==> |reports| > 0)
        invariant |word| < MAX_WORD_LEN
      {
        NextChar(s, p, buffers, b, i);
        var c := buffer[i];
        if IsSpace(c) {
          CheckingSpace(added, s, p, a, word, line, col, word_col, reports);
          var more := CheckWord(dictionary, word, line, word_col);
          reports := reports + more;
          error_found := error_found || |more| > 0;
          word := "";
          a := p + 1;
          if c == '\n' {
            line := line + 1;
            col := 1;
          } else {
            col := col + 1;
          }
        } else {
          CheckingChar(added, s, p, a, word, line, col, word_col, reports);
          if |word| == 0 {
            word_col := col;
          }
          if |word| < MAX_WORD_LEN - 1 {
            word := word + [c];
          }
          col := col + 1;
        }
        p := p + 1;
      }
      LeaveBuffer(s, p, buffers, b);
    }
    Exhausted(s, p, buffers);
    CheckingWord(added, s, p, a, word, line, col, word_col, reports);
    var more := CheckWord(dictionary, word, line, word_col);
    reports := reports + more;
    error_found := error_found || |more| > 0;
    ReportsAreListed(added, s, |s|);
    forall r ensures r in reports <==> exists i :: Misspelled(added, s, i) && IsReport(s, i, r) {
      ListedIff(added, s, reports, r);
    }
  }
}
