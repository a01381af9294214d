/** parse_job of parse.c: from tokens to a job, and the grammar it accepts. */
module ShellParser {
  import opened Options
  import opened ShellTokens

  const MAX_ARGS: nat := 100
  const MAX_SEGMENTS: nat := 50

  datatype Segment = Segment(argv: seq<string>, input: Option<string>, output: Option<string>)

  type Job = seq<Segment>

  /** `conditional_type`. */
  datatype Condition = Always | IfAnd | IfOr

  const NOTHING: Segment := Segment([], None, None)

  // ----- the parser as a function -----

  predicate HasWordNext(ts: seq<Token>) {
    |ts| >= 2 && ts[1].kind == Word
  }

  /** The tokens of one pipeline segment, up to the next '|' or the end: the segment and the
      tokens left, or None on a syntax error. */
  function ParseSegment(ts: seq<Token>, seg: Segment): (r: Option<(Segment, seq<Token>)>)
    ensures r.Some? ==> |r.value.1| <= |ts| && (r.value.1 != [] ==> r.value.1[0].kind == Pipe)
    ensures r.Some? && r.value.0 != seg ==> |r.value.1| < |ts|
    decreases |ts|
  {
    if ts == [] || ts[0].kind == Pipe then Some((seg, ts))
    else match ts[0].kind
      case RedirectIn =>
        if !HasWordNext(ts) then None else ParseSegment(ts[2..], seg.(input := Some(ts[1].value)))
      case RedirectOut =>
        if !HasWordNext(ts) then None else ParseSegment(ts[2..], seg.(output := Some(ts[1].value)))
      case Word => ParseSegment(ts[1..], seg.(argv := seg.argv + [ts[0].value]))
      case _ => None
  }

  function ParseSegments(ts: seq<Token>): Option<Job>
    decreases |ts|
  {
    if ts == [] then Some([])
    else match ParseSegment(ts, NOTHING)
      case None => None
      case Some((seg, rest)) =>
        if seg.argv == [] then None
        else match ParseSegments(if rest == [] then rest else rest[1..])
          case None => None
          case Some(more) => Some([seg] + more)
  }

  function Leading(ts: seq<Token>): (Condition, seq<Token>) {
    if ts != [] && ts[0].kind == And then (IfAnd, ts[1..])
    else if ts != [] && ts[0].kind == Or then (IfOr, ts[1..])
    else (Always, ts)
  }

  /** parse_job: the condition and the job, or None (NULL). */
  function Parse(ts: seq<Token>): Option<(Condition, Job)> {
    var (cond, rest) := Leading(ts);
    match ParseSegments(rest)
    case None => None
    case Some(job) => if job == [] then None else Some((cond, job))
  }

  // ----- the grammar -----

  datatype Item = Arg(word: string) | From(file: string) | To(file: string)

  /** A command: an optional condition, segments of arguments and redirections in any
      order, and possibly a '|' at the end. */
  datatype Command = Command(cond: Condition, segments: seq<seq<Item>>, trailing: bool)

  predicate HasArg(items: seq<Item>) {
    exists i :: 0 <= i < |items| && items[i].Arg?
  }

  predicate WellFormed(c: Command) {
    c.segments != [] && forall i :: 0 <= i < |c.segments| ==> HasArg(c.segments[i])
  }

  function ItemTokens(item: Item): seq<Token> {
    match item
    case Arg(w) => [Token(Word, w)]
    case From(f) => [Token(RedirectIn, "<"), Token(Word, f)]
    case To(f) => [Token(RedirectOut, ">"), Token(Word, f)]
  }

  function SegmentTokens(items: seq<Item>): seq<Token> {
    if items == [] then [] else ItemTokens(items[0]) + SegmentTokens(items[1..])
  }

  const PIPE: Token := Token(Pipe, "|")

  function PipelineTokens(segments: seq<seq<Item>>, trailing: bool): seq<Token> {
    if segments == [] then []
    else if |segments| == 1 then SegmentTokens(segments[0]) + if trailing then [PIPE] else []
    else SegmentTokens(segments[0]) + [PIPE] + PipelineTokens(segments[1..], trailing)
  }

  function CommandTokens(c: Command): seq<Token> {
    (match c.cond
     case Always => []
     case IfAnd => [Token(And, "and")]
     case IfOr => [Token(Or, "or")]) + PipelineTokens(c.segments, c.trailing)
  }

  // ----- what a command means -----

  /** The arguments in order; of several redirections of a kind the last one counts. */
  function Add(seg: Segment, item: Item): Segment {
    match item
    case Arg(w) => seg.(argv := seg.argv + [w])
    case From(f) => seg.(input := Some(f))
    case To(f) => seg.(output := Some(f))
  }

  function AddAll(seg: Segment, items: seq<Item>): Segment
    decreases |items|
  {
    if items == [] then seg else AddAll(Add(seg, items[0]), items[1..])
  }

  function Meaning(segments: seq<seq<Item>>): Job {
    if segments == [] then [] else [AddAll(NOTHING, segments[0])] + Meaning(segments[1..])
  }

  /** The words of a segment, in order. */
  function Args(items: seq<Item>): seq<string> {
    if items == [] then []
    else (if items[0].Arg? then [items[0].word] else []) + Args(items[1..])
  }

  /** The file of the last '<' and of the last '>'. */
  function LastFrom(items: seq<Item>): Option<string> {
    if items == [] then None
    else var last := items[|items| - 1]; if last.From? then Some(last.file) else LastFrom(items[..|items| - 1])
  }

  function LastTo(items: seq<Item>): Option<string> {
    if items == [] then None
    else var last := items[|items| - 1]; if last.To? then Some(last.file) else LastTo(items[..|items| - 1])
  }

  lemma {:induction false} AddAllLast(seg: Segment, items: seq<Item>, item: Item)
    ensures AddAll(seg, items + [item]) == Add(AddAll(seg, items), item)
    decreases |items|
  {
    if items == [] {
      assert items + [item] == [item];
    } else {
      assert (items + [item])[1..] == items[1..] + [item];
      AddAllLast(Add(seg, items[0]), items[1..], item);
    }
  }

  lemma {:induction false} ArgsLast(items: seq<Item>, item: Item)
    ensures Args(items + [item]) == Args(items) + if item.Arg? then [item.word] else []
  {
    if items == [] {
      assert items + [item] == [item];
    } else {
      assert (items + [item])[1..] == items[1..] + [item];
      ArgsLast(items[1..], item);
      Regroup(if items[0].Arg? then [items[0].word] else [], Args(items[1..]), if item.Arg? then [item.word] else []);
    }
  }

  /** A segment's meaning: its words in order, and the last redirection of each kind. */
  lemma {:induction false} SegmentMeaning(items: seq<Item>)
    ensures AddAll(NOTHING, items) == Segment(Args(items), LastFrom(items), LastTo(items))
    decreases |items|
  {
    if items != [] {
      var n := |items| - 1;
      SegmentMeaning(items[..n]);
      assert items == items[..n] + [items[n]];
      hide AddAll, Args;
      AddAllLast(NOTHING, items[..n], items[n]);
      ArgsLast(items[..n], items[n]);
    }
  }

  // ----- every command is parsed to its meaning -----

  lemma {:induction false} ParsesItems(seg: Segment, items: seq<Item>, rest: seq<Token>)
    requires rest != [] ==> rest[0].kind == Pipe
    ensures ParseSegment(SegmentTokens(items) + rest, seg) == Some((AddAll(seg, items), rest))
    decreases |items|
  {
    var ts := SegmentTokens(items) + rest;
    if items == [] {
      assert ts == rest;
    } else {
      var more := SegmentTokens(items[1..]) + rest;
      assert ts == ItemTokens(items[0]) + more;
      ParsesItem(seg, items[0], more);
      ParsesItems(Add(seg, items[0]), items[1..], rest);
    }
  }

  lemma {:induction false} ParsesItem(seg: Segment, item: Item, more: seq<Token>)
    ensures ParseSegment(ItemTokens(item) + more, seg) == ParseSegment(more, Add(seg, item))
  {
    var ts := ItemTokens(item) + more;
    if item.Arg? {
      assert ts[1..] == more;
    } else {
      assert ts[2..] == more;
    }
  }

  lemma {:induction false} ArgvGrows(seg: Segment, items: seq<Item>)
    ensures |AddAll(seg, items).argv| >= |seg.argv|
    ensures HasArg(items) ==> AddAll(seg, items).argv != []
    decreases |items|
  {
    if items != [] {
      ArgvGrows(Add(seg, items[0]), items[1..]);
      if HasArg(items) && !items[0].Arg? {
        var i :| 0 <= i < |items| && items[i].Arg?;
        assert items[1..][i - 1].Arg?;
      }
    }
  }

  lemma {:induction false} ParsesSegments(segments: seq<seq<Item>>, trailing: bool)
    requires forall i :: 0 <= i < |segments| ==> HasArg(segments[i])
    ensures ParseSegments(PipelineTokens(segments, trailing)) == Some(Meaning(segments))
    decreases |segments|
  {
    if segments != [] {
      ParsesSegments(segments[1..], trailing);
      var rest := AfterFirst(segments, trailing);
      FirstThenRest(segments, trailing);
      NothingLeft();
      hide ParseSegments, PipelineTokens, SegmentTokens, HasArg, AddAll, AfterFirst;
      ParsesFirst(segments[0], rest);
    } else {
      NothingLeft();
    }
  }

  /** The tokens of a pipeline behind its first segment. */
  function AfterFirst(segments: seq<seq<Item>>, trailing: bool): seq<Token>
    requires segments != []
  {
    if |segments| == 1 then if trailing then [PIPE] else []
    else [PIPE] + PipelineTokens(segments[1..], trailing)
  }

  lemma {:induction false} FirstThenRest(segments: seq<seq<Item>>, trailing: bool)
    requires segments != []
    ensures var rest := AfterFirst(segments, trailing);
            && PipelineTokens(segments, trailing) == SegmentTokens(segments[0]) + rest
            && (rest != [] ==> rest[0] == PIPE && rest[1..] == PipelineTokens(segments[1..], trailing))
            && (rest == [] ==> PipelineTokens(segments[1..], trailing) == [])
  {
    hide SegmentTokens;
    var a, p := SegmentTokens(segments[0]), [PIPE];
    if |segments| > 1 {
      Regroup(a, p, PipelineTokens(segments[1..], trailing));
    }
  }

  lemma NothingLeft()
    ensures ParseSegments([]) == Some([])
  {
  }

  lemma {:induction false} ParsesFirst(items: seq<Item>, rest: seq<Token>)
    requires HasArg(items) && (rest != [] ==> rest[0].kind == Pipe)
    ensures ParseSegments(SegmentTokens(items) + rest) ==
            match ParseSegments(if rest == [] then rest else rest[1..])
            case None => None
            case Some(more) => Some([AddAll(NOTHING, items)] + more)
  {
    ParsesItems(NOTHING, items, rest);
    ArgvGrows(NOTHING, items);
  }

  /** The tokens of a well-formed command parse to its meaning. */
  lemma ParsesCommand(c: Command)
    requires WellFormed(c)
    ensures Parse(CommandTokens(c)) == Some((c.cond, Meaning(c.segments)))
  {
    hide ParseSegments, PipelineTokens, Meaning, HasArg;
    LeadingOfCommand(c);
    ParsesSegments(c.segments, c.trailing);
    SomeSegments(c.segments);
  }

  /** The condition is told from the first token. */
  lemma LeadingOfCommand(c: Command)
    requires WellFormed(c)
    ensures Leading(CommandTokens(c)) == (c.cond, PipelineTokens(c.segments, c.trailing))
  {
    hide PipelineTokens;
    var ts, ps := CommandTokens(c), PipelineTokens(c.segments, c.trailing);
    if c.cond == Always {
      assert ts == ps;
      FirstThenRest(c.segments, c.trailing);
      FirstIsItem(c.segments[0]);
    } else {
      assert ts[1..] == ps;
    }
  }

  lemma {:induction false} FirstIsItem(items: seq<Item>)
    requires HasArg(items)
    ensures SegmentTokens(items) != [] && SegmentTokens(items)[0].kind !in {And, Or}
  {
  }

  lemma {:induction false} SomeSegments(segments: seq<seq<Item>>)
    ensures Meaning(segments) == [] <==> segments == []
  {
  }

  // ----- and nothing else is parsed -----

  /** The text of an operator token is that operator. */
  predicate WellLexed(ts: seq<Token>) {
    forall i :: 0 <= i < |ts| ==> ts[i] == Classify(ts[i].value)
  }

  lemma {:induction false} ItemsOf(ts: seq<Token>, seg: Segment) returns (items: seq<Item>)
    requires WellLexed(ts) && ParseSegment(ts, seg).Some?
    ensures var (s, rest) := ParseSegment(ts, seg).value;
            ts == SegmentTokens(items) + rest && s == AddAll(seg, items)
    ensures var (s, rest) := ParseSegment(ts, seg).value;
            |s.argv| > |seg.argv| ==> HasArg(items)
    decreases |ts|
  {
    if ts == [] || ts[0].kind == Pipe {
      items := [];
    } else {
      hide ParseSegment, WellLexed, ItemTokens, SegmentTokens, AddAll, Add, HasArg;
      var item := FirstItem(ts, seg);
      var n := |ItemTokens(item)|;
      var more := ItemsOf(ts[n..], Add(seg, item));
      items := [item] + more;
      ConsItems(item, more, Add(seg, item), seg);
      Regroup(ItemTokens(item), SegmentTokens(more), ParseSegment(ts, seg).value.1);
    }
  }

  lemma Regroup<T>(a: seq<T>, b: seq<T>, c: seq<T>)
    ensures a + (b + c) == (a + b) + c
  {
  }

  lemma {:induction false} ConsItems(item: Item, more: seq<Item>, next: Segment, seg: Segment)
    requires next == Add(seg, item)
    ensures SegmentTokens([item] + more) == ItemTokens(item) + SegmentTokens(more)
    ensures AddAll(seg, [item] + more) == AddAll(next, more)
    ensures item.Arg? || HasArg(more) ==> HasArg([item] + more)
  {
    var items := [item] + more;
    assert items[0] == item && items[1..] == more;
    if HasArg(more) {
      var i :| 0 <= i < |more| && more[i].Arg?;
      assert items[i + 1].Arg?;
    }
  }

  lemma FirstItem(ts: seq<Token>, seg: Segment) returns (item: Item)
    requires WellLexed(ts) && ParseSegment(ts, seg).Some? && ts != [] && ts[0].kind != Pipe
    ensures 0 < |ItemTokens(item)| <= |ts| && ts == ItemTokens(item) + ts[|ItemTokens(item)|..]
    ensures ParseSegment(ts, seg) == ParseSegment(ts[|ItemTokens(item)|..], Add(seg, item))
    ensures WellLexed(ts[|ItemTokens(item)|..])
    ensures item.Arg? || Add(seg, item).argv == seg.argv
  {
    if ts[0].kind == Word {
      item := Arg(ts[0].value);
    } else if ts[0].kind == RedirectIn {
      item := From(ts[1].value);
      assert ts[0] == Classify(ts[0].value);
    } else {
      item := To(ts[1].value);
      assert ts[0] == Classify(ts[0].value);
    }
  }

  lemma {:induction false} SegmentsOf(ts: seq<Token>) returns (segments: seq<seq<Item>>, trailing: bool)
    requires WellLexed(ts) && ParseSegments(ts).Some?
    ensures forall i :: 0 <= i < |segments| ==> HasArg(segments[i])
    ensures ts == PipelineTokens(segments, trailing) && ParseSegments(ts).value == Meaning(segments)
    decreases |ts|
  {
    if ts == [] {
      segments, trailing := [], false;
    } else {
      var (seg, rest) := ParseSegment(ts, NOTHING).value;
      var items := ItemsOf(ts, NOTHING);
      hide ParseSegment, SegmentTokens, HasArg, AddAll, WellLexed;
      if rest == [] {
        segments, trailing := [items], false;
        assert segments[1..] == [];
      } else {
        RestLexed(ts, items, rest);
        var more, t := SegmentsOf(rest[1..]);
        segments := [items] + more;
        assert segments[1..] == more;
        trailing := if more == [] then true else t;
        hide ParseSegments;
        FirstThenRest(segments, trailing);
        assert rest == [PIPE] + rest[1..];
      }
    }
  }

  lemma {:induction false} RestLexed(ts: seq<Token>, items: seq<Item>, rest: seq<Token>)
    requires WellLexed(ts) && ts == SegmentTokens(items) + rest && rest != [] && rest[0].kind == Pipe
    ensures rest[0] == PIPE && WellLexed(rest[1..])
  {
    var n := |SegmentTokens(items)|;
    assert rest[0] == ts[n];
    forall i | 0 <= i < |rest[1..]| ensures rest[1..][i] == Classify(rest[1..][i].value) {
      assert rest[1..][i] == ts[n + 1 + i];
    }
  }

  /** parse_job succeeds exactly on the tokens of well-formed commands, and returns what the
      command means. */
  lemma ParseIffCommand(ts: seq<Token>, cond: Condition, job: Job)
    requires WellLexed(ts)
    ensures Parse(ts) == Some((cond, job)) <==>
            exists c :: WellFormed(c) && CommandTokens(c) == ts && c.cond == cond && Meaning(c.segments) == job
  {
    forall c | WellFormed(c) && CommandTokens(c) == ts && c.cond == cond && Meaning(c.segments) == job
      ensures Parse(ts) == Some((cond, job))
    {
      ParsesCommand(c);
    }
    if Parse(ts) == Some((cond, job)) {
      var c := CommandOf(ts);
      assert WellFormed(c) && CommandTokens(c) == ts;
    }
  }

  lemma CommandOf(ts: seq<Token>) returns (c: Command)
    requires WellLexed(ts) && Parse(ts).Some?
    ensures WellFormed(c) && CommandTokens(c) == ts && Parse(ts).value == (c.cond, Meaning(c.segments))
  {
    hide ParseSegment, ParseSegments, PipelineTokens, Meaning, HasArg, WellLexed;
    var (cond, rest) := Leading(ts);
    LeadingLexed(ts);
    var segments, trailing := SegmentsOf(rest);
    c := Command(cond, segments, trailing);
    SomeSegments(segments);
  }

  lemma LeadingLexed(ts: seq<Token>)
    requires WellLexed(ts)
    ensures var (cond, rest) := Leading(ts);
            && WellLexed(rest)
            && (cond == IfAnd ==> ts == [Token(And, "and")] + rest)
            && (cond == IfOr ==> ts == [Token(Or, "or")] + rest)
            && (cond == Always ==> ts == [] + rest)
  {
    hide Classify, WellLexed;
    if ts != [] {
      FirstLexed(ts);
    }
  }

  lemma FirstLexed(ts: seq<Token>)
    requires WellLexed(ts) && ts != []
    ensures WellLexed(ts[1..])
    ensures ts[0].kind == And ==> ts[0] == Token(And, "and")
    ensures ts[0].kind == Or ==> ts[0] == Token(Or, "or")
  {
    assert ts[0] == Classify(ts[0].value);
    assert forall i :: 0 <= i < |ts[1..]| ==> ts[1..][i] == ts[i + 1];
  }

  /** The tokenizer's output is well lexed. */
  lemma TokensAreLexed(line: string)
    ensures WellLexed(Tokens(line))
  {
  }

  /** The same for lines: a line is a job exactly when its tokens are those of a command. */
  lemma LineIffCommand(line: string, cond: Condition, job: Job)
    ensures Parse(Tokens(line)) == Some((cond, job)) <==>
            exists c :: && WellFormed(c) && CommandTokens(c) == Tokens(line)
                        && c.cond == cond && Meaning(c.segments) == job
  {
    hide *;
    TokensAreLexed(line);
    ParseIffCommand(Tokens(line), cond, job);
  }

  // ----- printing and parsing back -----

  function Texts(ts: seq<Token>): (ws: seq<string>)
    ensures |ws| == |ts| && forall i :: 0 <= i < |ts| ==> ws[i] == ts[i].value
  {
    if ts == [] then [] else [ts[0].value] + Texts(ts[1..])
  }

  /** A command as a line, its tokens separated by single spaces. */
  function Render(c: Command): string {
    Join(Texts(CommandTokens(c)))
  }

  /** A word that stands for itself: solid, and no operator. */
  predicate Plain(w: string) {
    Solid(w) && Classify(w).kind == Word
  }

  function ItemWord(item: Item): string {
    match item
    case Arg(w) => w
    case From(f) => f
    case To(f) => f
  }

  predicate PlainItems(items: seq<Item>) {
    forall i :: 0 <= i < |items| ==> Plain(ItemWord(items[i]))
  }

  predicate SolidTokens(ts: seq<Token>) {
    WellLexed(ts) && forall i :: 0 <= i < |ts| ==> Solid(ts[i].value)
  }

  lemma SolidAppend(a: seq<Token>, b: seq<Token>)
    requires SolidTokens(a) && SolidTokens(b)
    ensures SolidTokens(a + b)
  {
  }

  lemma {:induction false} PlainSegment(items: seq<Item>)
    requires PlainItems(items)
    ensures SolidTokens(SegmentTokens(items))
  {
    if items != [] {
      PlainSegment(items[1..]);
      assert Plain(ItemWord(items[0]));
      SolidAppend(ItemTokens(items[0]), SegmentTokens(items[1..]));
    }
  }

  lemma {:induction false} PlainPipeline(segments: seq<seq<Item>>, trailing: bool)
    requires forall i :: 0 <= i < |segments| ==> PlainItems(segments[i])
    ensures SolidTokens(PipelineTokens(segments, trailing))
  {
    if segments != [] {
      PlainSegment(segments[0]);
      assert SolidTokens([PIPE]) && SolidTokens([]);
      PlainPipeline(segments[1..], trailing);
      var a := SegmentTokens(segments[0]);
      SolidAppend(a, [PIPE]);
      SolidAppend(a, []);
      SolidAppend(a + [PIPE], PipelineTokens(segments[1..], trailing));
    }
  }

  /** Parsing inverts printing: a command with plain words, written as a line with its
      redirections anywhere in their segments, is tokenized and parsed to its condition and
      its meaning. */
  lemma ParseInvertsPrint(c: Command)
    requires WellFormed(c) && forall i :: 0 <= i < |c.segments| ==> PlainItems(c.segments[i])
    ensures Tokens(Render(c)) == CommandTokens(c)
    ensures Parse(Tokens(Render(c))) == Some((c.cond, Meaning(c.segments)))
  {
    PlainCommand(c);
    hide *;
    var ts := CommandTokens(c);
    SolidTexts(ts);
    TokensOfJoin(Texts(ts));
    RenderIs(c);
    ParsesCommand(c);
  }

  lemma PlainCommand(c: Command)
    requires forall i :: 0 <= i < |c.segments| ==> PlainItems(c.segments[i])
    ensures SolidTokens(CommandTokens(c))
  {
    hide PlainItems, PipelineTokens, SolidTokens;
    PlainPipeline(c.segments, c.trailing);
    SolidConditions();
    SolidAppend([], PipelineTokens(c.segments, c.trailing));
    SolidAppend([Token(And, "and")], PipelineTokens(c.segments, c.trailing));
    SolidAppend([Token(Or, "or")], PipelineTokens(c.segments, c.trailing));
  }

  lemma SolidConditions()
    ensures SolidTokens([]) && SolidTokens([Token(And, "and")]) && SolidTokens([Token(Or, "or")])
  {
  }

  lemma {:induction false} SolidTexts(ts: seq<Token>)
    requires SolidTokens(ts)
    ensures forall i :: 0 <= i < |Texts(ts)| ==> Solid(Texts(ts)[i])
    ensures ClassifyAll(Texts(ts)) == ts
  {
  }

  lemma RenderIs(c: Command)
    ensures Render(c) == Join(Texts(CommandTokens(c)))
  {
  }

  // ----- parse_job -----

  /** The token list fits the fixed arrays: at most 99 words in a segment, which already has
      `words`, and at most 50 segments, of which `done` are complete. */
  predicate Fits(ts: seq<Token>, words: nat, done: nat)
    decreases |ts|
  {
    if ts == [] then true
    else match ts[0].kind
      case Word => words + 1 < MAX_ARGS && done < MAX_SEGMENTS && Fits(ts[1..], words + 1, done)
      case Pipe => words == 0 || Fits(ts[1..], 0, done + 1)
      case RedirectIn => !HasWordNext(ts) || Fits(ts[2..], words, done)
      case RedirectOut => !HasWordNext(ts) || Fits(ts[2..], words, done)
      case _ => true
  }

  /** Commands of at most 50 segments of at most 99 words fit. */
  lemma {:induction false} CommandFits(segments: seq<seq<Item>>, trailing: bool, done: nat)
    requires done + |segments| <= MAX_SEGMENTS
    requires forall i :: 0 <= i < |segments| ==> |Args(segments[i])| < MAX_ARGS
    ensures Fits(PipelineTokens(segments, trailing), 0, done)
    decreases |segments|
  {
    if segments != [] {
      var rest := AfterFirst(segments, trailing);
      FirstThenRest(segments, trailing);
      CommandFits(segments[1..], trailing, done + 1);
      hide AfterFirst, PipelineTokens;
      SegmentFits(segments[0], rest, 0, done);
    } else {
      assert PipelineTokens(segments, trailing) == [];
    }
  }

  lemma {:induction false} SegmentFits(items: seq<Item>, rest: seq<Token>, words: nat, done: nat)
    requires done < MAX_SEGMENTS && words + |Args(items)| < MAX_ARGS
    requires rest != [] ==> rest[0] == PIPE && Fits(rest[1..], 0, done + 1)
    ensures Fits(SegmentTokens(items) + rest, words, done)
    decreases |items|
  {
    var ts := SegmentTokens(items) + rest;
    if items == [] {
      assert ts == rest;
    } else {
      var more := SegmentTokens(items[1..]) + rest;
      assert ts == ItemTokens(items[0]) + more;
      if items[0].Arg? {
        SegmentFits(items[1..], rest, words + 1, done);
        assert ts[1..] == more;
      } else {
        SegmentFits(items[1..], rest, words, done);
        assert ts[2..] == more;
      }
    }
  }

  /** One token (and, for a redirection, its file name) of the inner loop. */
  lemma {:induction false} InnerStep(ts: seq<Token>, i: nat, seg: Segment)
    requires i < |ts| && ts[i].kind != Pipe
    ensures ts[i].kind == Word ==> ParseSegment(ts[i..], seg) == ParseSegment(ts[i + 1..], Add(seg, Arg(ts[i].value)))
    ensures ts[i].kind == RedirectIn || ts[i].kind == RedirectOut ==>
              if i + 1 < |ts| && ts[i + 1].kind == Word
              then ParseSegment(ts[i..], seg) == ParseSegment(ts[i + 2..],
                     Add(seg, if ts[i].kind == RedirectIn then From(ts[i + 1].value) else To(ts[i + 1].value)))
              else ParseSegment(ts[i..], seg) == None
    ensures ts[i].kind == And || ts[i].kind == Or ==> ParseSegment(ts[i..], seg) == None
  {
    var s := ts[i..];
    assert s[1..] == ts[i + 1..];
    if |s| >= 2 {
      assert s[2..] == ts[i + 2..];
    }
  }

  lemma {:induction false} FitsStep(ts: seq<Token>, i: nat, words: nat, done: nat)
    requires i < |ts| && Fits(ts[i..], words, done)
    ensures ts[i].kind == Word ==> words + 1 < MAX_ARGS && done < MAX_SEGMENTS && Fits(ts[i + 1..], words + 1, done)
    ensures ts[i].kind == Pipe && words > 0 ==> Fits(ts[i + 1..], 0, done + 1)
    ensures (ts[i].kind == RedirectIn || ts[i].kind == RedirectOut) && i + 1 < |ts| && ts[i + 1].kind == Word ==>
              Fits(ts[i + 2..], words, done)
  {
    var s := ts[i..];
    assert s[1..] == ts[i + 1..];
    if |s| >= 2 {
      assert s[2..] == ts[i + 2..];
    }
  }

  /** What the segments found so far and the parse of the remaining tokens make. */
  function Combine(done: Job, rest: Option<Job>): Option<Job> {
    match rest
    case None => None
    case Some(more) => Some(done + more)
  }

  /** The inner loop has stopped at the end of the tokens or at a '|'. */
  lemma {:induction false} SegmentEnds(ts: seq<Token>, start: nat, i: nat, next: nat, seg: Segment)
    requires start <= i <= |ts| && (i < |ts| ==> ts[i].kind == Pipe) && next == if i < |ts| then i + 1 else i
    requires ParseSegment(ts[start..], NOTHING) == ParseSegment(ts[i..], seg) && start < |ts|
    ensures seg.argv == [] ==> ParseSegments(ts[start..]) == None
    ensures seg.argv != [] ==> ParseSegments(ts[start..]) == Combine([seg], ParseSegments(ts[next..]))
  {
    assert ParseSegment(ts[i..], seg) == Some((seg, ts[i..]));
    if i < |ts| {
      assert ts[i..][1..] == ts[i + 1..];
    } else {
      assert ts[i..] == [];
    }
  }

  lemma SegmentFails(ts: seq<Token>, start: nat)
    requires start < |ts| && ParseSegment(ts[start..], NOTHING) == None
    ensures ParseSegments(ts[start..]) == None
  {
  }

  lemma CombineOne(done: Job, seg: Segment, rest: Option<Job>)
    ensures Combine(done + [seg], rest) == Combine(done, Combine([seg], rest))
  {
    if rest.Some? {
      Regroup(done, [seg], rest.value);
    }
  }

  /** The inner loop: the tokens of one segment, from `start` to the next '|' or the end. */
  method ParseOneSegment(tokens: TokenArray, start: nat, ghost done: nat)
    returns (r: Option<Segment>, token_idx: nat)
    requires tokens.Valid() && start <= tokens.count && Fits(tokens.Contents()[start..], 0, done)
    ensures var ts := tokens.Contents();
            r.None? ==> ParseSegment(ts[start..], NOTHING) == None
    ensures var ts := tokens.Contents();
            r.Some? ==>
              && start <= token_idx <= |ts| && (token_idx < |ts| ==> ts[token_idx].kind == Pipe)
              && ParseSegment(ts[start..], NOTHING) == ParseSegment(ts[token_idx..], r.value)
              && (r.value.argv != [] ==> done < MAX_SEGMENTS)
              && Fits(ts[token_idx..], |r.value.argv|, done)
  {
    hide ParseSegment, Fits;
    ghost var ts := tokens.Contents();
    var input_file, output_file := None, None;
    var argv := new string[MAX_ARGS](i => "");
    var argc := 0;
    token_idx := start;
    ghost var seg := NOTHING;
    assert argv[..0] == [];
    while token_idx < tokens.count && tokens.items[token_idx].kind != Pipe
      invariant start <= token_idx <= tokens.count && argc < MAX_ARGS && (argc > 0 ==> done < MAX_SEGMENTS)
      invariant seg == Segment(argv[..argc], input_file, output_file)
      invariant Fits(ts[token_idx..], argc, done)
      invariant ParseSegment(ts[start..], NOTHING) == ParseSegment(ts[token_idx..], seg)
      decreases tokens.count - token_idx
    {
      var t := tokens.items[token_idx];
      InnerStep(ts, token_idx, seg);
      FitsStep(ts, token_idx, argc, done);
      if t.kind == RedirectIn {
        token_idx := token_idx + 1;
        if token_idx >= tokens.count || tokens.items[token_idx].kind != Word {
          return None, token_idx;
        }
        input_file := Some(tokens.items[token_idx].value);
        token_idx := token_idx + 1;
        seg := seg.(input := input_file);
      } else if t.kind == RedirectOut {
        token_idx := token_idx + 1;
        if token_idx >= tokens.count || tokens.items[token_idx].kind != Word {
          return None, token_idx;
        }
        output_file := Some(tokens.items[token_idx].value);
        token_idx := token_idx + 1;
        seg := seg.(output := output_file);
      } else if t.kind == Word {
        argv[argc] := t.value;
        argc := argc + 1;
        token_idx := token_idx + 1;
        seg := seg.(argv := seg.argv + [t.value]);
      } else {
        return None, token_idx;
      }
    }
    return Some(Segment(argv[..argc], input_file, output_file)), token_idx;
  }

  method ParseJob(tokens: TokenArray) returns (r: Option<(Condition, Job)>)
    requires tokens.Valid() && Fits(Leading(tokens.Contents()).1, 0, 0)
    ensures r == Parse(tokens.Contents())
  {
    hide ParseSegment, ParseSegments, Fits, Combine, Parse;
    ghost var ts := tokens.Contents();
    var segments := new Segment[MAX_SEGMENTS](i => NOTHING);
    var segment_count := 0;
    var token_idx := 0;
    var conditional_type := Always;
    if token_idx < tokens.count && (tokens.items[token_idx].kind == And || tokens.items[token_idx].kind == Or) {
      conditional_type := if tokens.items[token_idx].kind == And then IfAnd else IfOr;
      token_idx := token_idx + 1;
    }
    ghost var body := ts[token_idx..];
    assert Leading(ts) == (conditional_type, body);
    ParseIs(ts, conditional_type, body);
    CombineNone(ParseSegments(body));
    assert segments[..0] == [];
    while token_idx < tokens.count
      invariant token_idx <= tokens.count && segment_count <= MAX_SEGMENTS
      invariant fresh(segments) && segments.Length == MAX_SEGMENTS
      invariant Fits(ts[token_idx..], 0, segment_count)
      invariant ParseSegments(body) == Combine(segments[..segment_count], ParseSegments(ts[token_idx..]))
    {
      ghost var start, done := token_idx, segments[..segment_count];
      var segment;
      segment, token_idx := ParseOneSegment(tokens, token_idx, segment_count);
      if segment.None? {
        SegmentFails(ts, start);
        CombineFails(done);
        return None;
      }
      SegmentEnds(ts, start, token_idx, if token_idx < tokens.count then token_idx + 1 else token_idx, segment.value);
      if |segment.value.argv| == 0 {
        CombineFails(done);
        return None;
      }
      segments[segment_count] := segment.value;
      segment_count := segment_count + 1;
      assert segments[..segment_count] == done + [segment.value];
      if token_idx < tokens.count && tokens.items[token_idx].kind == Pipe {
        FitsStep(ts, token_idx, |segment.value.argv|, segment_count - 1);
        token_idx := token_idx + 1;
      } else {
        FitsEnd(segment_count);
        assert ts[token_idx..] == [];
      }
      CombineOne(done, segment.value, ParseSegments(ts[token_idx..]));
    }
    NothingLeft();
    assert ts[token_idx..] == [];
    CombineEnd(segments[..segment_count]);
    if segment_count == 0 {
      return None;
    }
    return Some((conditional_type, segments[..segment_count]));
  }

  lemma CombineNone(rest: Option<Job>)
    ensures Combine([], rest) == rest
  {
    if rest.Some? {
      assert [] + rest.value == rest.value;
    }
  }

  /** The result of parse_job in terms of its two parts. */
  lemma {:induction false} ParseIs(ts: seq<Token>, cond: Condition, body: seq<Token>)
    requires Leading(ts) == (cond, body)
    ensures ParseSegments(body) == None ==> Parse(ts) == None
    ensures ParseSegments(body).Some? ==>
              Parse(ts) == if ParseSegments(body).value == [] then None else Some((cond, ParseSegments(body).value))
  {
  }

  lemma CombineFails(done: Job)
    ensures Combine(done, None) == None
  {
  }

  lemma CombineEnd(done: Job)
    ensures Combine(done, Some([])) == Some(done)
  {
    assert done + [] == done;
  }

  lemma {:induction false} FitsEnd(done: nat)
    ensures Fits([], 0, done)
  {
  }

  // ----- from a line to a job -----

  /** A line is tokenized, then parsed. */
  method ParseLine(line: string) returns (r: Option<(Condition, Job)>)
    requires Fits(Leading(Tokens(line)).1, 0, 0)
    ensures r == Parse(Tokens(line))
  {
    var tokens := Tokenize(line);
    r := ParseJob(tokens);
  }

  /** The round trip through the two loops: a command of at most 50 segments of at most 99
      plain words, written as a line with its redirections anywhere, is read back. */
  method ReadBack(c: Command) returns (r: Option<(Condition, Job)>)
    requires WellFormed(c) && forall i :: 0 <= i < |c.segments| ==> PlainItems(c.segments[i])
    requires |c.segments| <= MAX_SEGMENTS && forall i :: 0 <= i < |c.segments| ==> |Args(c.segments[i])| < MAX_ARGS
    ensures r == Some((c.cond, Meaning(c.segments)))
  {
    hide *;
    ParseInvertsPrint(c);
    LeadingOfCommand(c);
    CommandFits(c.segments, c.trailing, 0);
    r := ParseLine(Render(c));
  }
}
