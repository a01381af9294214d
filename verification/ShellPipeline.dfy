/** The wiring of a pipeline in execute_job (exec.c): the parent makes n - 1 pipes, forks n
    children that inherit its descriptor table, and each child redirects and closes
    descriptors before it runs its command. Every system call succeeds. */
module ShellPipeline {
  import opened Options
  import opened ShellParser

  /** What a descriptor refers to. */
  datatype File =
    | ReadEnd(pipe: nat)
    | WriteEnd(pipe: nat)
    | DevNull
    | InputFile(name: string)
    | OutputFile(name: string)
    | Inherited(id: nat)

  type Table = map<nat, File>

  const STDIN: nat := 0
  const STDOUT: nat := 1

  /** The descriptors of one process. */
  class Process {
    var fds: Table

    /** A process with the given table: the shell itself, or the child of a fork. */
    constructor (fds: Table)
      ensures this.fds == fds
    {
      this.fds := fds;
    }

    /** pipe(2): two new descriptors. */
    method MakePipe(id: nat) returns (r: nat, w: nat)
      modifies this
      ensures r !in old(fds) && w !in old(fds) && r != w
      ensures fds == old(fds)[r := ReadEnd(id)][w := WriteEnd(id)]
    {
      r := FreeDescriptor(fds);
      w := FreeDescriptor(fds[r := ReadEnd(id)]);
      fds := fds[r := ReadEnd(id)][w := WriteEnd(id)];
    }

    /** open(2): one new descriptor. */
    method Open(f: File) returns (fd: nat)
      modifies this
      ensures fd !in old(fds) && fds == old(fds)[fd := f]
    {
      fd := FreeDescriptor(fds);
      fds := fds[fd := f];
    }

    method Dup2(from: nat, to: nat)
      requires from in fds
      modifies this
      ensures fds == old(fds)[to := old(fds)[from]]
    {
      fds := fds[to := fds[from]];
    }

    method Close(fd: nat)
      modifies this
      ensures fds == old(fds) - {fd}
    {
      fds := fds - {fd};
    }
  }

  /** A bound above every descriptor in use: one is always free. */
  ghost function Above(s: set<nat>): (r: nat)
    ensures forall k <- s :: k < r
  {
    if s == {} then 0
    else
      var k :| k in s;
      var r := Above(s - {k});
      assert forall x <- s :: x == k || x in s - {k};
      if k < r then r else k + 1
  }

  /** Some descriptor that is not in use; nothing is assumed about which. */
  method FreeDescriptor(fds: Table) returns (fd: nat)
    ensures fd !in fds
  {
    assert Above(fds.Keys) !in fds;
    fd :| fd !in fds;
  }

  // ----- tables -----

  type Ends = (nat, nat)

  /** A table with the pipes `ps` added; pipe `k` has the descriptors `ps[k]`. */
  function WithPipes(base: Table, ps: seq<Ends>): Table {
    if ps == [] then base
    else
      var k := |ps| - 1;
      WithPipes(base, ps[..k])[ps[k].0 := ReadEnd(k)][ps[k].1 := WriteEnd(k)]
  }

  function Descriptors(ps: seq<Ends>): set<nat> {
    if ps == [] then {} else Descriptors(ps[..|ps| - 1]) + {ps[|ps| - 1].0, ps[|ps| - 1].1}
  }

  /** Every pipe got two descriptors that were free. */
  predicate AllFresh(base: Table, ps: seq<Ends>) {
    ps == [] ||
    var k := |ps| - 1;
    && AllFresh(base, ps[..k])
    && ps[k].0 !in WithPipes(base, ps[..k]) && ps[k].1 !in WithPipes(base, ps[..k])
    && ps[k].0 != ps[k].1
  }

  lemma {:induction false} PipesAdded(base: Table, ps: seq<Ends>)
    requires AllFresh(base, ps)
    ensures WithPipes(base, ps).Keys == base.Keys + Descriptors(ps) && base.Keys !! Descriptors(ps)
    ensures forall d <- base :: WithPipes(base, ps)[d] == base[d]
    ensures WithPipes(base, ps) - Descriptors(ps) == base
    decreases |ps|
  {
    if ps != [] {
      PipesAdded(base, ps[..|ps| - 1]);
    }
  }

  lemma {:induction false} PipeAt(base: Table, ps: seq<Ends>, k: nat)
    requires AllFresh(base, ps) && k < |ps|
    ensures var t := WithPipes(base, ps);
            && ps[k].0 in t && t[ps[k].0] == ReadEnd(k)
            && ps[k].1 in t && t[ps[k].1] == WriteEnd(k)
            && ps[k].0 in Descriptors(ps) && ps[k].1 in Descriptors(ps)
    decreases |ps|
  {
    if k < |ps| - 1 {
      assert ps[..|ps| - 1][k] == ps[k];
      PipeAt(base, ps[..|ps| - 1], k);
    }
  }

  /** Closing all the pipe descriptors leaves the redirected base table. */
  lemma {:induction false} ClosedTable(base: Table, ps: seq<Ends>, a: File, b: File)
    requires AllFresh(base, ps) && STDIN in base && STDOUT in base
    ensures WithPipes(base, ps)[STDIN := a][STDOUT := b] - Descriptors(ps) == base[STDIN := a][STDOUT := b]
  {
    PipesAdded(base, ps);
    assert STDIN !in Descriptors(ps) && STDOUT !in Descriptors(ps);
    hide AllFresh, Descriptors, WithPipes;
  }

  lemma {:induction false} NoPipes(base: Table)
    ensures AllFresh(base, []) && WithPipes(base, []) == base
  {
  }

  lemma {:induction false} MorePipes(base: Table, ps: seq<Ends>, r: nat, w: nat)
    requires AllFresh(base, ps) && r !in WithPipes(base, ps) && w !in WithPipes(base, ps) && r != w
    ensures AllFresh(base, ps + [(r, w)])
    ensures WithPipes(base, ps + [(r, w)]) == WithPipes(base, ps)[r := ReadEnd(|ps|)][w := WriteEnd(|ps|)]
  {
    assert (ps + [(r, w)])[..|ps|] == ps;
  }

  // ----- what every child ends up with -----

  function StageInput(base: Table, job: Job, interactive: bool, i: nat): File
    requires i < |job| && STDIN in base
  {
    if i > 0 then ReadEnd(i - 1)
    else if job[0].input.Some? then InputFile(job[0].input.value)
    else if !interactive then DevNull
    else base[STDIN]
  }

  function StageOutput(base: Table, job: Job, i: nat): File
    requires i < |job| && STDOUT in base
  {
    if i < |job| - 1 then WriteEnd(i)
    else if job[i].output.Some? then OutputFile(job[i].output.value)
    else base[STDOUT]
  }

  /** The table of child `i` when it runs its command: the shell's table, with standard
      input and output replaced. */
  function ChildTable(base: Table, job: Job, interactive: bool, i: nat): Table
    requires i < |job| && STDIN in base && STDOUT in base
  {
    base[STDIN := StageInput(base, job, interactive, i)][STDOUT := StageOutput(base, job, i)]
  }

  /** Who holds a file: the process and the descriptor. */
  ghost function Holders(tables: seq<Table>, f: File): set<(nat, nat)> {
    set i, d | 0 <= i < |tables| && d in tables[i] && tables[i][d] == f :: (i, d)
  }

  /** The tables of all children, and last the shell's. */
  function AllTables(base: Table, job: Job, interactive: bool): seq<Table>
    requires STDIN in base && STDOUT in base
  {
    seq(|job|, i requires 0 <= i < |job| => ChildTable(base, job, interactive, i)) + [base]
  }

  ghost function TablesOf(processes: seq<Process>): seq<Table>
    reads processes
  {
    seq(|processes|, i requires 0 <= i < |processes| reads processes => processes[i].fds)
  }

  /** Each pipe has one writer and one reader: its write end is held by its own stage as
      standard output and its read end by the next stage as standard input, and neither by
      anybody else, the last process, which is the shell, included. No other pipe is held. */
  ghost predicate WiredUp(tables: seq<Table>) {
    forall p: nat ::
      && Holders(tables, WriteEnd(p)) == (if p + 2 < |tables| then {(p, STDOUT)} else {})
      && Holders(tables, ReadEnd(p)) == (if p + 2 < |tables| then {(p + 1, STDIN)} else {})
  }

  lemma OneWriterOneReader(base: Table, job: Job, interactive: bool)
    requires |job| >= 2 && STDIN in base && STDOUT in base
    requires forall d <- base :: base[d].Inherited?
    ensures WiredUp(AllTables(base, job, interactive))
  {
    hide ChildTable, Holders;
    var ts := AllTables(base, job, interactive);
    forall p: nat
      ensures Holders(ts, WriteEnd(p)) == (if p + 2 < |ts| then {(p, STDOUT)} else {})
      ensures Holders(ts, ReadEnd(p)) == (if p + 2 < |ts| then {(p + 1, STDIN)} else {})
    {
      HoldersOfPipe(base, job, interactive, p);
    }
  }

  lemma HoldersOfPipe(base: Table, job: Job, interactive: bool, p: nat)
    requires |job| >= 2 && STDIN in base && STDOUT in base
    requires forall d <- base :: base[d].Inherited?
    ensures var ts := AllTables(base, job, interactive);
            && Holders(ts, WriteEnd(p)) == (if p + 1 < |job| then {(p, STDOUT)} else {})
            && Holders(ts, ReadEnd(p)) == (if p + 1 < |job| then {(p + 1, STDIN)} else {})
  {
    hide ChildTable, AllTables;
    var ts := AllTables(base, job, interactive);
    forall i: nat, d | i < |ts| && d in ts[i]
      ensures ts[i][d] == WriteEnd(p) <==> i == p && p + 1 < |job| && d == STDOUT
      ensures ts[i][d] == ReadEnd(p) <==> i == p + 1 && p + 1 < |job| && d == STDIN
    {
      HeldFile(base, job, interactive, i, d, p);
    }
    StandardDescriptors(base, job, interactive, p);
  }

  /** The one process and descriptor at which a pipe's end can be found. */
  lemma HeldFile(base: Table, job: Job, interactive: bool, i: nat, d: nat, p: nat)
    requires |job| >= 2 && STDIN in base && STDOUT in base
    requires forall d <- base :: base[d].Inherited?
    requires i < |AllTables(base, job, interactive)| && d in AllTables(base, job, interactive)[i]
    ensures var f := AllTables(base, job, interactive)[i][d];
            && (f == WriteEnd(p) <==> i == p && p + 1 < |job| && d == STDOUT)
            && (f == ReadEnd(p) <==> i == p + 1 && p + 1 < |job| && d == STDIN)
  {
    if i < |job| {
      FilesAtTheEnds(base, job, interactive, i, d);
    }
  }

  lemma StandardDescriptors(base: Table, job: Job, interactive: bool, p: nat)
    requires STDIN in base && STDOUT in base
    ensures var ts := AllTables(base, job, interactive);
            |ts| == |job| + 1 && forall i :: 0 <= i < |ts| ==> STDIN in ts[i] && STDOUT in ts[i]
  {
  }

  /** What every descriptor of a child refers to. Files and /dev/null feed exactly the first
      stage and end exactly the last; a child has no pipe but its own two; the rest is the
      shell's, and so are the first stage's input and the last one's output where nothing else
      is said. */
  lemma FilesAtTheEnds(base: Table, job: Job, interactive: bool, i: nat, fd: nat)
    requires |job| >= 2 && i < |job| && STDIN in base && STDOUT in base
    requires forall d <- base :: base[d].Inherited?
    requires fd in ChildTable(base, job, interactive, i)
    ensures var f := ChildTable(base, job, interactive, i)[fd];
            && (f.InputFile? <==> i == 0 && fd == STDIN && job[0].input.Some?)
            && (f.InputFile? ==> Some(f.name) == job[0].input)
            && (f.DevNull? <==> i == 0 && fd == STDIN && job[0].input.None? && !interactive)
            && (f.OutputFile? <==> i == |job| - 1 && fd == STDOUT && job[i].output.Some?)
            && (f.OutputFile? ==> Some(f.name) == job[i].output)
            && (f.ReadEnd? <==> i > 0 && fd == STDIN) && (f.ReadEnd? ==> f.pipe + 1 == i)
            && (f.WriteEnd? <==> i < |job| - 1 && fd == STDOUT) && (f.WriteEnd? ==> f.pipe == i)
            && (fd != STDIN && fd != STDOUT ==> fd in base && f == base[fd])
            && (i == 0 && fd == STDIN && job[0].input.None? && interactive ==> f == base[STDIN])
            && (i == |job| - 1 && fd == STDOUT && job[i].output.None? ==> f == base[STDOUT])
  {
  }

  // ----- redirections in a pipeline -----

  /** Both redirections of stage `i`, where given, are in force when it runs. */
  predicate Redirected(base: Table, job: Job, interactive: bool, i: nat)
    requires i < |job| && STDIN in base && STDOUT in base
  {
    var t := ChildTable(base, job, interactive, i);
    && (job[i].input.Some? ==> t[STDIN] == InputFile(job[i].input.value))
    && (job[i].output.Some? ==> t[STDOUT] == OutputFile(job[i].output.value))
  }

  /** A stage obeys its redirections exactly when it reads no pipe where it names an input
      file, and writes no pipe where it names an output file. */
  lemma RedirectedIff(base: Table, job: Job, interactive: bool, i: nat)
    requires i < |job| && STDIN in base && STDOUT in base
    ensures Redirected(base, job, interactive, i) <==>
            (job[i].input.Some? ==> i == 0) && (job[i].output.Some? ==> i == |job| - 1)
  {
  }

  /** Redirections can be combined with a pipeline exactly when only its first segment names
      an input file and only its last an output file. */
  lemma RedirectionsObeyedIff(base: Table, job: Job, interactive: bool)
    requires |job| >= 2 && STDIN in base && STDOUT in base
    ensures (forall i :: 0 <= i < |job| ==> Redirected(base, job, interactive, i)) <==>
            (forall i :: 0 <= i < |job| ==> (job[i].input.Some? ==> i == 0) && (job[i].output.Some? ==> i == |job| - 1))
  {
    hide Redirected;
    forall i | 0 <= i < |job|
      ensures Redirected(base, job, interactive, i) <==>
              (job[i].input.Some? ==> i == 0) && (job[i].output.Some? ==> i == |job| - 1)
    {
      RedirectedIff(base, job, interactive, i);
    }
  }

  /** The job of `ls > f | wc < g`. */
  const LS_WC: Job := [Segment(["ls"], None, Some("f")), Segment(["wc"], Some("g"), None)]

  /** A command on which they are not obeyed: it parses to a job, but `ls` writes to the pipe
      and not to `f`, and `wc` reads the pipe and not `g`. */
  lemma RedirectionsIgnored(base: Table, interactive: bool)
    requires STDIN in base && STDOUT in base
    ensures var c := Command(Always, [[Arg("ls"), To("f")], [Arg("wc"), From("g")]], false);
            Parse(CommandTokens(c)) == Some((Always, LS_WC))
    ensures ChildTable(base, LS_WC, interactive, 0)[STDOUT] == WriteEnd(0)
    ensures ChildTable(base, LS_WC, interactive, 1)[STDIN] == ReadEnd(0)
  {
    var ls, wc := [Arg("ls"), To("f")], [Arg("wc"), From("g")];
    var c := Command(Always, [ls, wc], false);
    assert ls[0].Arg? && wc[0].Arg?;
    ParsesCommand(c);
    assert c.segments[1..] == [wc] && [wc][1..] == [];
    assert ls[1..] == [To("f")] && wc[1..] == [From("g")] && [To("f")][1..] == [] && [From("g")][1..] == [];
    hide Parse, CommandTokens;
    assert AddAll(NOTHING, ls) == LS_WC[0];
    assert AddAll(NOTHING, wc) == LS_WC[1];
    assert Meaning([wc]) == [LS_WC[1]];
    assert Meaning(c.segments) == LS_WC;
  }

  /** The table has the descriptors of the other, and above 1 the same files. */
  predicate KeepsRest(t: Table, base: Table) {
    && STDIN in t && STDOUT in t && t.Keys == base.Keys
    && forall d <- base :: d != STDIN && d != STDOUT ==> t[d] == base[d]
  }

  /** The tables of all stages and of the shell, told from the shell's table before: each stage
      has the shell's descriptors, and above 1 its files; neighbours share a pipe; the first
      stage reads its input file, or else the shell's own input, or /dev/null in batch mode;
      the last one writes its output file, or else to the shell's own output. */
  ghost predicate StagesWired(ts: seq<Table>, base: Table, job: Job, interactive: bool)
    requires |job| >= 2 && STDIN in base && STDOUT in base
  {
    var last := |job| - 1;
    && |ts| == |job| + 1 && ts[|job|] == base
    && (forall i :: 0 <= i < |job| ==> KeepsRest(ts[i], base))
    && (forall i :: 0 <= i < last ==> Joined(ts[i], ts[i + 1], i))
    && ts[0][STDIN] == (if job[0].input.Some? then InputFile(job[0].input.value)
                        else if interactive then base[STDIN] else DevNull)
    && ts[last][STDOUT] == (if job[last].output.Some? then OutputFile(job[last].output.value) else base[STDOUT])
  }

  /** The output of the one is the input of the other, through pipe `i`. */
  predicate Joined(t: Table, u: Table, i: nat) {
    STDOUT in t && t[STDOUT] == WriteEnd(i) && STDIN in u && u[STDIN] == ReadEnd(i)
  }

  lemma StagesAreWired(base: Table, job: Job, interactive: bool)
    requires |job| >= 2 && STDIN in base && STDOUT in base
    ensures StagesWired(AllTables(base, job, interactive), base, job, interactive)
  {
    hide StageInput, StageOutput, ChildTable;
    var ts := AllTables(base, job, interactive);
    forall i | 0 <= i < |job|
      ensures KeepsRest(ts[i], base)
      ensures ts[i][STDIN] == StageInput(base, job, interactive, i) && ts[i][STDOUT] == StageOutput(base, job, i)
    {
      ChildKeepsRest(base, job, interactive, i);
    }
    StageFiles(base, job, interactive);
  }

  lemma ChildKeepsRest(base: Table, job: Job, interactive: bool, i: nat)
    requires i < |job| && STDIN in base && STDOUT in base
    ensures var t := ChildTable(base, job, interactive, i);
            && KeepsRest(t, base)
            && t[STDIN] == StageInput(base, job, interactive, i) && t[STDOUT] == StageOutput(base, job, i)
  {
    hide StageInput, StageOutput;
  }

  lemma StageFiles(base: Table, job: Job, interactive: bool)
    requires |job| >= 2 && STDIN in base && STDOUT in base
    ensures var last := |job| - 1;
            && StageInput(base, job, interactive, 0) ==
               (if job[0].input.Some? then InputFile(job[0].input.value)
                else if interactive then base[STDIN] else DevNull)
            && StageOutput(base, job, last) ==
               (if job[last].output.Some? then OutputFile(job[last].output.value) else base[STDOUT])
            && forall i :: 0 <= i < last ==>
                 StageOutput(base, job, i) == WriteEnd(i) && StageInput(base, job, interactive, i + 1) == ReadEnd(i)
  {
  }

  // ----- execute_job for two segments and more -----

  /** The child's part: redirect, close every pipe descriptor, then open the files. */
  method WireChild(child: Process, job: Job, interactive: bool, i: nat, pipes: array<Ends>, ghost base: Table)
    requires |job| >= 2 && i < |job| && pipes.Length == |job| - 1
    requires AllFresh(base, pipes[..]) && child.fds == WithPipes(base, pipes[..])
    requires STDIN in base && STDOUT in base
    modifies child
    ensures child.fds == ChildTable(base, job, interactive, i)
  {
    hide AllFresh, Descriptors, WithPipes;
    ghost var ps := pipes[..];
    ghost var all: Table := child.fds;
    PipesAdded(base, ps);
    ghost var a := if i > 0 then ReadEnd(i - 1) else base[STDIN];
    ghost var b := if i < |job| - 1 then WriteEnd(i) else base[STDOUT];
    if i > 0 {
      PipeAt(base, ps, i - 1);
      child.Dup2(pipes[i - 1].0, STDIN);
    }
    if i < |job| - 1 {
      PipeAt(base, ps, i);
      KeepsOther(all, pipes[i].1, STDIN, a, base);
      child.Dup2(pipes[i].1, STDOUT);
    }
    var wired: Table := all[STDIN := a];
    assert child.fds == wired[STDOUT := b];
    ClosePipes(child, pipes);
    ClosedTable(base, ps, a, b);
    ghost var t: Table := base[STDIN := a][STDOUT := b];
    assert child.fds == t;
    if i == 0 && !interactive && job[i].input.None? {
      OpenAs(child, DevNull, STDIN);
    }
    if i == 0 && job[i].input.Some? {
      OpenAs(child, InputFile(job[i].input.value), STDIN);
    }
    if i == |job| - 1 && job[i].output.Some? {
      OpenAs(child, OutputFile(job[i].output.value), STDOUT);
    }
  }

  lemma KeepsOther(all: Table, d: nat, e: nat, a: File, base: Table)
    requires d in all && e in base && d !in base
    ensures d != e && all[e := a][d] == all[d]
  {
  }

  /** fd = open(f); dup2(fd, to); close(fd). */
  method OpenAs(child: Process, f: File, to: nat)
    requires to in child.fds
    modifies child
    ensures child.fds == old(child.fds)[to := f]
  {
    var fd := child.Open(f);
    child.Dup2(fd, to);
    child.Close(fd);
  }

  method ClosePipes(p: Process, pipes: array<Ends>)
    modifies p
    ensures p.fds == old(p.fds) - Descriptors(pipes[..])
  {
    for j := 0 to pipes.Length
      invariant p.fds == old(p.fds) - Descriptors(pipes[..j])
    {
      assert pipes[..j + 1][..j] == pipes[..j];
      p.Close(pipes[j].0);
      p.Close(pipes[j].1);
    }
    assert pipes[..pipes.Length] == pipes[..];
  }

  /** The shell's part, up to waitpid: afterwards the shell has its own descriptors again,
      and each child has the table that its stage needs. */
  method ExecuteJob(shell: Process, job: Job, interactive: bool) returns (children: seq<Process>)
    requires |job| >= 2 && {0, 1, 2} <= shell.fds.Keys
    modifies shell
    ensures shell.fds == old(shell.fds)
    ensures |children| == |job| && forall i :: 0 <= i < |children| ==> fresh(children[i])
    ensures forall i :: 0 <= i < |children| ==>
              children[i].fds == ChildTable(old(shell.fds), job, interactive, i)
    ensures StagesWired(TablesOf(children + [shell]), old(shell.fds), job, interactive)
    ensures (forall d <- old(shell.fds) :: old(shell.fds)[d].Inherited?) ==> WiredUp(TablesOf(children + [shell]))
  {
    hide AllFresh, Descriptors, WithPipes, ChildTable, StagesWired, WiredUp, TablesOf, AllTables;
    ghost var base := shell.fds;
    NoPipes(base);
    var pipe_count := |job| - 1;
    var pipes := new Ends[pipe_count](i => (0, 0));
    for i := 0 to pipe_count
      invariant AllFresh(base, pipes[..i]) && shell.fds == WithPipes(base, pipes[..i])
    {
      var r, w := shell.MakePipe(i);
      ghost var before := pipes[..i];
      pipes[i] := (r, w);
      assert pipes[..i + 1] == before + [(r, w)];
      MorePipes(base, before, r, w);
    }
    ghost var ps := pipes[..];
    assert pipes[..pipe_count] == ps;
    children := [];
    for i := 0 to |job|
      invariant |children| == i && pipes[..] == ps && shell.fds == WithPipes(base, ps)
      invariant forall k :: 0 <= k < i ==> fresh(children[k]) && children[k] != shell
      invariant forall k :: 0 <= k < i ==> children[k].fds == ChildTable(base, job, interactive, k)
    {
      var child := new Process(shell.fds);
      WireChild(child, job, interactive, i, pipes, base);
      children := children + [child];
    }
    ClosePipes(shell, pipes);
    PipesAdded(base, ps);
    TablesAre(children + [shell], base, job, interactive);
    StagesAreWired(base, job, interactive);
    if forall d <- base :: base[d].Inherited? {
      OneWriterOneReader(base, job, interactive);
    }
  }

  /** What execute_job leaves are the tables of all stages and of the shell. */
  lemma TablesAre(processes: seq<Process>, base: Table, job: Job, interactive: bool)
    requires |processes| == |job| + 1 && STDIN in base && STDOUT in base && processes[|job|].fds == base
    requires forall i :: 0 <= i < |job| ==> processes[i].fds == ChildTable(base, job, interactive, i)
    ensures TablesOf(processes) == AllTables(base, job, interactive)
  {
    hide ChildTable;
  }
}
