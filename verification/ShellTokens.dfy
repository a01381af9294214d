/** The tokenizer of the shell (parse.c): comments are cut off, the rest is split at blanks,
    and each word is classified. */
module ShellTokens {
  import opened Options
  import opened CText

  datatype Kind = Word | Pipe | RedirectIn | RedirectOut | And | Or

  datatype Token = Token(kind: Kind, value: string)

  /** The delimiters of strtok_r. */
  predicate IsBlank(c: char) {
    c == ' ' || c == '\t' || c == '\n'
  }

  function Classify(word: string): Token {
    Token(if word == "<" then RedirectIn
          else if word == ">" then RedirectOut
          else if word == "|" then Pipe
          else if word == "and" then And
          else if word == "or" then Or
          else Word, word)
  }

  // ----- what the tokens of a line are -----

  function SkipSpace(s: string): string {
    if s != [] && IsSpace(s[0]) then SkipSpace(s[1..]) else s
  }

  /** The part of a line before any comment. */
  function Uncommented(line: string): string {
    var s := SkipSpace(line);
    match Find(s, '#')
    case None => s
    case Some(i) => s[..i]
  }

  /** The number of characters before the first blank. */
  function WordLength(s: string): (n: nat)
    ensures n <= |s| && (forall i :: 0 <= i < n ==> !IsBlank(s[i])) && (n < |s| ==> IsBlank(s[n]))
  {
    if s == [] || IsBlank(s[0]) then 0 else 1 + WordLength(s[1..])
  }

  lemma {:induction false} WordLengthIs(s: string, n: nat)
    requires n <= |s| && (forall i :: 0 <= i < n ==> !IsBlank(s[i])) && (n < |s| ==> IsBlank(s[n]))
    ensures WordLength(s) == n
  {
    if n > 0 {
      assert forall i :: 0 <= i < n - 1 ==> s[1..][i] == s[i + 1];
      WordLengthIs(s[1..], n - 1);
    }
  }

  /** The maximal blank-free parts of `s`, in order. */
  function Words(s: string): seq<string>
    decreases |s|
  {
    if s == [] then []
    else if IsBlank(s[0]) then Words(s[1..])
    else [s[..WordLength(s)]] + Words(s[WordLength(s)..])
  }

  function ClassifyAll(ws: seq<string>): (ts: seq<Token>)
    ensures |ts| == |ws| && forall i :: 0 <= i < |ws| ==> ts[i] == Classify(ws[i])
  {
    if ws == [] then [] else [Classify(ws[0])] + ClassifyAll(ws[1..])
  }

  function Tokens(line: string): seq<Token> {
    ClassifyAll(Words(Uncommented(line)))
  }

  // ----- what tokenizing means -----

  /** The kind of a token is told by its text: the five operators, and words. */
  lemma KindIff(w: string)
    ensures Classify(w).value == w
    ensures Classify(w).kind == RedirectIn <==> w == "<"
    ensures Classify(w).kind == RedirectOut <==> w == ">"
    ensures Classify(w).kind == Pipe <==> w == "|"
    ensures Classify(w).kind == And <==> w == "and"
    ensures Classify(w).kind == Or <==> w == "or"
    ensures Classify(w).kind == Word <==> w !in {"<", ">", "|", "and", "or"}
  {
  }

  lemma {:induction false} WordsAreSolid(s: string)
    ensures forall w <- Words(s) :: w != "" && (forall c <- w :: c in s && !IsBlank(c))
    decreases |s|
  {
    if s != [] {
      if IsBlank(s[0]) {
        WordsAreSolid(s[1..]);
      } else {
        var n := WordLength(s);
        WordsAreSolid(s[n..]);
        assert forall w <- Words(s) :: w == s[..n] || w in Words(s[n..]);
      }
    }
  }

  /** What is left of a line has no '#', and is part of it. */
  lemma UncommentedHasNoComment(line: string)
    ensures '#' !in Uncommented(line)
  {
  }

  /** No token is empty or has a blank or a '#' in it, and its kind is that of its text. */
  lemma TokenText(line: string, i: nat)
    requires i < |Tokens(line)|
    ensures var t := Tokens(line)[i];
            t == Classify(t.value) && t.value != "" && forall c <- t.value :: !IsBlank(c) && c != '#'
  {
    hide Words, Uncommented;
    WordsAreSolid(Uncommented(line));
    UncommentedHasNoComment(line);
    var w := Words(Uncommented(line))[i];
    assert w in Words(Uncommented(line));
  }

  lemma {:induction false} SkipSpaceAppend(a: string, b: string)
    ensures SkipSpace(a + b) == if SkipSpace(a) == "" then SkipSpace(b) else SkipSpace(a) + b
  {
    if a == [] {
      assert a + b == b;
    } else if IsSpace(a[0]) {
      assert (a + b)[1..] == a[1..] + b;
      SkipSpaceAppend(a[1..], b);
    }
  }

  lemma {:induction false} SkipSpaceIsTail(s: string)
    ensures |SkipSpace(s)| <= |s| && SkipSpace(s) == s[|s| - |SkipSpace(s)|..]
    ensures forall c <- SkipSpace(s) :: c in s
    ensures SkipSpace(s) != "" ==> !IsSpace(SkipSpace(s)[0])
  {
    if s != [] && IsSpace(s[0]) {
      SkipSpaceIsTail(s[1..]);
    }
  }

  /** Without a '#', only the white space in front goes. */
  lemma {:induction false} NoComment(line: string)
    requires '#' !in line
    ensures Uncommented(line) == SkipSpace(line)
  {
    SkipSpaceIsTail(line);
  }

  lemma HashAt(s: string, b: string)
    requires '#' !in s
    ensures var u := s + ("#" + b); Find(u, '#') == Some(|s|) && u[..|s|] == s
  {
    var u := s + ("#" + b);
    assert u[..|s|] == s && u[|s|] == '#';
    hide Find;
    FindIs(u, '#', |s|);
  }

  lemma {:induction false} SkipHash(b: string)
    ensures SkipSpace("#" + b) == "#" + b
  {
  }

  lemma {:induction false} CommentIsCut(a: string, b: string)
    requires '#' !in a
    ensures Uncommented(a + "#" + b) == SkipSpace(a)
  {
    hide SkipSpace, Find;
    SkipSpaceIsTail(a);
    Associate(a, "#", b);
    SkipSpaceAppend(a, "#" + b);
    SkipHash(b);
    HashAt(SkipSpace(a), b);
    assert "" + ("#" + b) == "#" + b;
  }

  /** A '#' anywhere ends the line: what follows it does not matter. */
  lemma CommentsIgnored(a: string, b: string)
    requires '#' !in a
    ensures Tokens(a + "#" + b) == Tokens(a)
  {
    hide SkipSpace, Words, Uncommented;
    CommentIsCut(a, b);
    NoComment(a);
  }

  /** White space in front of a line does not matter. */
  lemma LeadingSpaceIgnored(x: char, b: string)
    requires IsSpace(x)
    ensures Tokens([x] + b) == Tokens(b)
  {
    assert ([x] + b)[1..] == b;
    assert SkipSpace([x] + b) == SkipSpace(b);
  }

  lemma {:induction false} WordsOfBlank(x: char, b: string)
    requires IsBlank(x)
    ensures Words([x] + b) == Words(b)
  {
    assert ([x] + b)[1..] == b;
  }

  lemma {:induction false} WordsSeparated(a: string, x: char, b: string)
    requires IsBlank(x)
    ensures Words(a + [x] + b) == Words(a) + Words(b)
    decreases |a|
  {
    var s := a + [x] + b;
    if a == [] {
      assert s == [x] + b;
      WordsOfBlank(x, b);
      assert [] + Words(b) == Words(b);
    } else if IsBlank(a[0]) {
      assert s[1..] == a[1..] + [x] + b;
      WordsSeparated(a[1..], x, b);
    } else {
      var n := WordLength(a);
      SameLength(a, x, b);
      assert s[..n] == a[..n] && s[n..] == a[n..] + [x] + b;
      hide WordLength;
      WordsSeparated(a[n..], x, b);
      Associate([a[..n]], Words(a[n..]), Words(b));
    }
  }

  lemma Associate<T>(a: seq<T>, b: seq<T>, c: seq<T>)
    ensures a + (b + c) == a + b + c
  {
  }

  lemma {:induction false} SameLength(a: string, x: char, b: string)
    requires IsBlank(x)
    ensures WordLength(a + [x] + b) == WordLength(a)
  {
    var s, n := a + [x] + b, WordLength(a);
    assert forall i :: 0 <= i < n ==> s[i] == a[i];
    assert n < |a| ==> s[n] == a[n];
    assert n == |a| ==> s[n] == x;
    WordLengthIs(s, n);
  }

  /** The first character that is no blank is no other white space either (vertical tab, form
      feed, carriage return): those are skipped in front of a line, but do not separate. */
  predicate StartsClean(b: string) {
    forall i :: 0 <= i < |b| && !IsBlank(b[i]) && (forall k :: 0 <= k < i ==> IsBlank(b[k])) ==> !IsSpace(b[i])
  }

  /** A blank separates: the tokens of a line are those before it and those behind it, exactly
      when the part behind starts clean, or only white space comes before. */
  lemma {:induction false} BlankSeparatesIff(a: string, x: char, b: string)
    requires IsBlank(x) && '#' !in a && '#' !in b
    ensures Tokens(a + [x] + b) == Tokens(a) + Tokens(b) <==> SkipSpace(a) == "" || StartsClean(b)
  {
    hide Words, SkipSpace, Uncommented, StartsClean, ClassifyAll;
    var s, t := SkipSpace(a), SkipSpace(b);
    NoComment(a);
    NoComment(b);
    NoComment(a + [x] + b);
    assert a + [x] + b == a + ([x] + b);
    SkipSpaceAppend(a, [x] + b);
    SkipOne(x, b);
    if s == "" {
      NoTokens();
      assert [] + Tokens(b) == Tokens(b);
    } else {
      assert s + ([x] + b) == s + [x] + b;
      WordsSeparated(s, x, b);
      CleanIff(b);
      ClassifyAppend(Words(s), Words(b));
      ClassifySame(Words(b), Words(t));
      Cancel(Tokens(a), ClassifyAll(Words(b)), Tokens(b));
    }
  }

  lemma Cancel<T>(p: seq<T>, a: seq<T>, b: seq<T>)
    ensures p + a == p + b <==> a == b
  {
    if p + a == p + b {
      assert a == (p + a)[|p|..] && b == (p + b)[|p|..];
    }
  }

  lemma {:induction false} SkipOne(x: char, b: string)
    requires IsBlank(x)
    ensures SkipSpace([x] + b) == SkipSpace(b)
  {
    assert ([x] + b)[1..] == b;
  }

  lemma {:induction false} ClassifyAppend(a: seq<string>, b: seq<string>)
    ensures ClassifyAll(a + b) == ClassifyAll(a) + ClassifyAll(b)
  {
    if a == [] {
      assert a + b == b;
    } else {
      assert (a + b)[1..] == a[1..] + b;
      ClassifyAppend(a[1..], b);
    }
  }

  lemma {:induction false} ClassifySame(a: seq<string>, b: seq<string>)
    ensures ClassifyAll(a) == ClassifyAll(b) <==> a == b
  {
    if ClassifyAll(a) == ClassifyAll(b) {
      forall i | 0 <= i < |a| ensures a[i] == b[i] {
        assert ClassifyAll(a)[i].value == a[i] && ClassifyAll(b)[i].value == b[i];
      }
    }
  }

  /** Skipping the white space in front changes the words exactly when it is not all blanks. */
  lemma {:induction false} CleanIff(b: string)
    ensures Words(b) == Words(SkipSpace(b)) <==> StartsClean(b)
    decreases |b|
  {
    if b != [] && IsBlank(b[0]) {
      CleanIff(b[1..]);
      CleanTail(b);
    } else if b != [] && IsSpace(b[0]) {
      DirtyStart(b);
      SkipSpaceIsTail(b);
      assert !StartsClean(b) by {
        assert !IsBlank(b[0]) && IsSpace(b[0]);
      }
    } else if b != [] {
      assert StartsClean(b);
    }
  }

  lemma CleanTail(b: string)
    requires b != [] && IsBlank(b[0])
    ensures StartsClean(b) <==> StartsClean(b[1..])
  {
    if StartsClean(b) {
      forall i | 0 <= i < |b[1..]| && !IsBlank(b[1..][i]) && (forall k :: 0 <= k < i ==> IsBlank(b[1..][k]))
        ensures !IsSpace(b[1..][i])
      {
        assert b[1..][i] == b[i + 1];
        assert forall k :: 0 < k < i + 1 ==> b[k] == b[1..][k - 1];
      }
    }
    if StartsClean(b[1..]) {
      forall i | 0 <= i < |b| && !IsBlank(b[i]) && (forall k :: 0 <= k < i ==> IsBlank(b[k])) ensures !IsSpace(b[i]) {
        assert i > 0 && b[1..][i - 1] == b[i];
        assert forall k :: 0 <= k < i - 1 ==> b[1..][k] == b[k + 1];
      }
    }
  }

  /** The first word then starts with the white space, and no first word of the rest does. */
  lemma {:induction false} DirtyStart(b: string)
    requires b != [] && !IsBlank(b[0]) && IsSpace(b[0])
    ensures Words(b) != Words(SkipSpace(b))
  {
    SkipSpaceIsTail(b);
    var t := SkipSpace(b);
    assert Words(b)[0][0] == b[0];
    if t != [] {
      assert !IsBlank(t[0]);
      assert Words(t)[0][0] == t[0];
    }
  }

  /** A line of one word is one token. */
  lemma OneToken(w: string)
    requires w != "" && !IsSpace(w[0]) && forall c <- w :: !IsBlank(c) && c != '#'
    ensures Tokens(w) == [Classify(w)]
  {
    NoComment(w);
    WordLengthIs(w, |w|);
    assert w[..|w|] == w && w[|w|..] == "";
    NoTokens();
    assert Words(w) == [w] + Words("");
    assert [w][1..] == [];
  }

  // ----- the growing array -----

  class TokenArray {
    var items: array<Token>
    var count: nat

    ghost predicate Valid()
      reads this
    {
      0 < items.Length && count <= items.Length
    }

    ghost function Contents(): seq<Token>
      reads this, items
      requires Valid()
    {
      items[..count]
    }

    constructor ()
      ensures Valid() && fresh(items) && Contents() == []
    {
      items := new Token[100](i => Token(Word, ""));
      count := 0;
    }

    /** Appends a token, doubling the array when it is full. */
    method Append(token: Token)
      requires Valid()
      modifies this, items
      ensures Valid() && (items == old(items) || fresh(items))
      ensures Contents() == old(Contents()) + [token]
    {
      if count >= items.Length {
        var grown := new Token[2 * items.Length](i => Token(Word, ""));
        for k := 0 to count
          invariant count <= items.Length < grown.Length && items == old(items) && count == old(count)
          invariant items[..] == old(items[..])
          invariant grown[..k] == items[..k]
        {
          grown[k] := items[k];
        }
        items := grown;
      }
      items[count] := token;
      count := count + 1;
    }
  }

  // ----- tokenize -----

  lemma SkipSpaceFrom(line: string, i: nat)
    requires i < |line| && IsSpace(line[i])
    ensures SkipSpace(line[i..]) == SkipSpace(line[i + 1..])
  {
    assert line[i..][1..] == line[i + 1..];
  }

  lemma BlankFrom(s: string, i: nat)
    requires i < |s| && IsBlank(s[i])
    ensures Words(s[i..]) == Words(s[i + 1..])
  {
    assert s[i..][1..] == s[i + 1..];
  }

  lemma WordFrom(s: string, i: nat, j: nat)
    requires i < j <= |s| && (forall k :: i <= k < j ==> !IsBlank(s[k])) && (j < |s| ==> IsBlank(s[j]))
    ensures Words(s[i..]) == [s[i..j]] + Words(s[j..])
  {
    WordLengthIs(s[i..], j - i);
    assert s[i..][j - i..] == s[j..] && s[i..][..j - i] == s[i..j];
  }

  method Tokenize(line: string) returns (tokens: TokenArray)
    ensures fresh(tokens) && fresh(tokens.items) && tokens.Valid()
    ensures tokens.Contents() == Tokens(line)
  {
    hide Words, ClassifyAll, WordLength, Find;
    tokens := new TokenArray();
    var p := 0;
    assert line[0..] == line;
    while p < |line| && IsSpace(line[p])
      invariant p <= |line| && SkipSpace(line[p..]) == SkipSpace(line)
      invariant fresh(tokens) && fresh(tokens.items) && tokens.Valid() && tokens.Contents() == []
    {
      SkipSpaceFrom(line, p);
      p := p + 1;
    }
    var rest := line[p..];
    if p < |line| && line[p] == '#' {
      FindIs(rest, '#', 0);
      NoTokens();
      assert rest[..0] == "" && Uncommented(line) == "";
      return;
    }
    var comment := Find(rest, '#');
    var copy := if comment.Some? then rest[..comment.value] else rest;
    assert copy == Uncommented(line);
    var q := 0;
    assert copy[0..] == copy;
    while q < |copy|
      invariant q <= |copy| && tokens.Valid() && fresh(tokens) && fresh(tokens.items)
      invariant ClassifyAll(Words(copy)) == tokens.Contents() + ClassifyAll(Words(copy[q..]))
    {
      if IsBlank(copy[q]) {
        BlankFrom(copy, q);
        q := q + 1;
      } else {
        var e := q;
        while e < |copy| && !IsBlank(copy[e])
          invariant q <= e <= |copy| && forall k :: q <= k < e ==> !IsBlank(copy[k])
          invariant tokens.Valid() && fresh(tokens) && fresh(tokens.items)
          invariant ClassifyAll(Words(copy)) == tokens.Contents() + ClassifyAll(Words(copy[q..]))
        {
          e := e + 1;
        }
        var token_str := copy[q..e];
        var kind;
        if token_str == "<" {
          kind := RedirectIn;
        } else if token_str == ">" {
          kind := RedirectOut;
        } else if token_str == "|" {
          kind := Pipe;
        } else {
          kind := Word;
          if token_str == "and" {
            kind := And;
          } else if token_str == "or" {
            kind := Or;
          }
        }
        WordFrom(copy, q, e);
        ghost var done := tokens.Contents();
        tokens.Append(Token(kind, token_str));
        ClassifyFirst(token_str, Words(copy[e..]), done, tokens.Contents());
        q := e;
      }
    }
    NoTokens();
    assert copy[q..] == "";
  }

  lemma NoTokens()
    ensures ClassifyAll(Words("")) == []
  {
  }

  lemma {:induction false} ClassifyFirst(w: string, ws: seq<string>, done: seq<Token>, now: seq<Token>)
    requires now == done + [Classify(w)]
    ensures done + ClassifyAll([w] + ws) == now + ClassifyAll(ws)
  {
    hide Classify;
    assert ([w] + ws)[1..] == ws;
    var c, r := Classify(w), ClassifyAll(ws);
    assert ClassifyAll([w] + ws) == [c] + r;
    hide ClassifyAll;
    assert done + ([c] + r) == now + r;
  }

  // ----- rendering words as a line -----

  function Join(ws: seq<string>): string {
    if ws == [] then ""
    else if |ws| == 1 then ws[0]
    else ws[0] + " " + Join(ws[1..])
  }

  /** A word that survives the tokenizer: not empty, without white space and '#'. */
  predicate Solid(w: string) {
    w != "" && forall i :: 0 <= i < |w| ==> !IsSpace(w[i]) && w[i] != '#'
  }

  lemma {:induction false} WordsOfSolid(w: string, s: string)
    requires Solid(w) && (s != [] ==> IsBlank(s[0]))
    ensures Words(w + s) == [w] + Words(s)
  {
    assert forall i :: 0 <= i < |w| ==> (w + s)[i] == w[i] && !IsBlank(w[i]);
    assert |w| < |w + s| ==> (w + s)[|w|] == s[0];
    WordLengthIs(w + s, |w|);
    assert (w + s)[..|w|] == w && (w + s)[|w|..] == s;
  }

  lemma {:induction false} WordsOfJoin(ws: seq<string>)
    requires forall i :: 0 <= i < |ws| ==> Solid(ws[i])
    ensures Words(Join(ws)) == ws
    ensures '#' !in Join(ws) && (ws != [] ==> Join(ws) != [] && !IsSpace(Join(ws)[0]))
  {
    if |ws| == 1 {
      WordsOfSolid(ws[0], "");
      assert ws[0] + "" == ws[0];
    } else if ws != [] {
      WordsOfJoin(ws[1..]);
      var s := " " + Join(ws[1..]);
      assert s[1..] == Join(ws[1..]);
      WordsOfSolid(ws[0], s);
      assert Join(ws) == ws[0] + s;
    }
  }

  /** Splitting undoes joining. */
  lemma {:induction false} TokensOfJoin(ws: seq<string>)
    requires forall i :: 0 <= i < |ws| ==> Solid(ws[i])
    ensures Tokens(Join(ws)) == ClassifyAll(ws)
  {
    WordsOfJoin(ws);
  }
}
