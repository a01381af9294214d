# Verified models of a heap allocator, a Nim server, a shell and a spell checker

Four C programs are modelled in Dafny, each in the form of its source: objects and loops over
mutable state are classes and methods with loops, proved equal to functions on values; what
the programs promise is then proved about those functions, for every input, every run or every
interleaving.

* **The allocator** (`P1/src/mymalloc.c`). `Heap` is the code: cursor loops over 512 header and
  payload words that are overwritten in place. `HeapSpec` says what each call does to raw
  memory, the chunk list being whatever the headers decode to. `HeapLayout` holds the algebra
  of chunk lists, `HeapTheorems` what holds of every run of allocations, frees of any pointer,
  and stores into live payloads, `HeapMisuse` when invalid frees are detected.
* **The Nim server** (`P4/clients/src/nimd.c`), in three layers. `NimLobby` is the matchmaking
  protocol as a state machine in which each critical section is one atomic step, with an
  inductive invariant over all interleavings. `NimGame` is the loop of `game_thread`;
  `NimReferee` says what each turn does with the messages heard and gives the whole transcript of
  a game, `NimGameTheorems` holds its invariants, `NimOutcome` which input ends it and who wins,
  `NimBoard` and `NimStrategy` Bouton's theorem and the winning strategy of player 1.
  `NimWire` is the frame printer, and the parser over a stream that `read` may cut anywhere;
  `NimMessages` sends the game's messages through both.
* **The shell** (`P3/src/parse.c`, `P3/src/exec.c`). `ShellTokens` and `ShellParser` are the
  tokenizer and parser with the grammar they accept and the round trip through printing;
  `ShellPipeline` is the pipe, fork, dup2 and close wiring of a pipeline.
* **The spell checker** (`P2/src/spell.c`). `SpellDict` is the chained hash table against the
  sequence of words added; `SpellScan` the two streaming loops against a definition by
  positions in the whole file.

`Options` and `CText` hold what several modules share: optional values, C strings, digits.

Modelling choices that matter when reading the contracts:

* Sizes are 64-bit words; the rounding of a request and the end address in `myfree` are
  written with their wrap-around. Addresses are byte offsets from the start of the arena, which
  lies at an arbitrary aligned address `BASE` of a flat 64-bit address space; every integer
  offset may be passed to `Myfree`. "Rejected" stands for the message and `exit(2)`. A run may go on after a
  rejection, which only adds runs.
* In `NimGame` the input is an arbitrary sequence of returns of `poll`, each with what
  `receive_msg` yields for the players that are ready; `atoi` is an arbitrary function. The
  transcript of messages sent and moves accepted is kept in the object. The loop body is cut
  into one method per numbered part of the source.
* In `NimLobby` every player has a fresh identity, and thread creation and allocation succeed.
  The names held are recorded separately from the list, at the two places that register and
  remove them.
* In `ShellPipeline` a free descriptor is chosen arbitrarily, so the result does not depend on
  how the kernel numbers descriptors. `fork` copies the table of the shell.
* In `SpellScan` a file is the list of buffers that successive calls of `read` return.

Where documentation and code disagree, the model follows the code:

* `P2/README.txt:28` says a lower-case entry matches any capitalization. With both "foo" and
  "Foo" listed it does not: `BothSpellingsListed` gives the input, and `LowercaseMatchesIff`
  the exact condition.
* `P1/README.txt:12` says invalid frees are detected. The code tests the range, the alignment,
  and the word before the pointer, which may be the program's own data: an odd word above 1
  passes when its size fits, or when it is so large that the end address wraps around
  (`DisguiseIff`). `OffsetPointerAccepted` gives a run of each kind with an invalid free that is
  accepted; invalid frees are detected throughout a run exactly when it stores no such word
  (`InvalidFreesDetectedIff`), and in a state when none lies outside the headers (`DetectsIff`).
* `P3/README.txt:64` says pipelines and redirections can be combined. A stage that reads or
  writes a pipe ignores the file it names for that side: `RedirectionsIgnored` gives the
  command, `RedirectionsObeyedIff` the exact condition.

## Model

| member | source | states |
|---|---|---|
| Heap.Arena.constructor | P1/src/mymalloc.c:11-17 | the static arena is all zero and not initialized |
| Heap.Arena.InitHeap | P1/src/mymalloc.c:33-39 | the arena becomes one free chunk; the invariant holds |
| Heap.Arena.FindFree | P1/src/mymalloc.c:42-63 | on any tiled heap the cursor loop returns exactly the first-fit chunk, or NULL when no free chunk fits |
| Heap.Arena.SplitChunk | P1/src/mymalloc.c:66-78 | all words afterwards: two headers when 16 bytes or more would remain, otherwise nothing changes; the flag is kept |
| Heap.Arena.Coalesce | P1/src/mymalloc.c:81-110 | on any tiled heap, however fragmented, the loop ends and leaves exactly the coalesced list's headers; every word that is none of them is unchanged |
| Heap.Arena.ValidPtr | P1/src/mymalloc.c:113-126 | accepts exactly the 8-aligned offsets inside the arena |
| Heap.Arena.CheckLeaks | P1/src/mymalloc.c:129-154 | the count is the number of live blocks and the bytes the sum of their lengths |
| Heap.Arena.Allocate | P1/src/mymalloc.c:168-185 | search, coalesce, search again, split, mark: the outcome is that of the first search alone |
| Heap.Arena.Mymalloc | P1/src/mymalloc.c:156-186 | the code computes the specification of malloc on raw memory, result and whole new state |
| Heap.Arena.Myfree | P1/src/mymalloc.c:188-221 | for every pointer the code computes the specification of free, result and whole new state |
| HeapSpec.AlignedFacts | P1/src/mymalloc.c:165-166 | rounding gives the next multiple of 8 up to 2^64-8, and wraps to 0 exactly beyond |
| HeapSpec.DecodeUnique | P1/src/mymalloc.c:42-60 | memory that holds the headers of a list that covers the arena decodes to that list and no other |
| HeapSpec.WrittenMeans | P1/src/mymalloc.c:66-110 | writing a chunk list writes each of its headers and no other word |
| HeapSpec.ClearFlag | P1/src/mymalloc.c:205-218 | clearing a set flag bit frees one chunk, or touches no header at all |
| HeapSpec.StoreKeepsHeaders | P1/src/mymalloc.c:185 | a store into a live payload leaves the chunk list and the invariant alone |
| HeapLayout.FirstFit | P1/src/mymalloc.c:42-63 | the chosen chunk fits and no earlier one does; none fits when there is no choice |
| HeapLayout.TakeFacts | P1/src/mymalloc.c:66-78 | handing out a chunk keeps the arena covered and adds one block to the live ones |
| HeapLayout.TakeIsNormal | P1/src/mymalloc.c:66-78 | splitting creates no adjacent free pair |
| HeapLayout.CoalescedIsNormal | P1/src/mymalloc.c:81-110 | coalescing leaves no adjacent free pair and the same extent |
| HeapLayout.CoalescedKeepsLive | P1/src/mymalloc.c:81-110 | every allocated chunk keeps its place and size |
| HeapLayout.CoalescedKeepsFreeCells | P1/src/mymalloc.c:81-110 | the set of free words is the same before and after |
| HeapLayout.CoalesceIdempotent | P1/src/mymalloc.c:81-110 | coalescing twice is coalescing once |
| HeapLayout.Canonical | P1/src/mymalloc.c:80-110 | a list without adjacent free chunks is determined by its extent and its live blocks |
| HeapLayout.FreeFacts | P1/src/mymalloc.c:218-220 | after marking a chunk free and coalescing, the live blocks are the old ones without it |
| HeapLayout.FewFreeChunks | P1/src/mymalloc.c:80-110 | without adjacent free pairs there is at most one free chunk more than allocated ones |
| HeapLayout.UsedWordsIsTotal | P1/src/mymalloc.c:141-144 | the payload of the allocated chunks is the sum over the live blocks |
| HeapLayout.WordsConserved | P1/src/mymalloc.c:66-110 | headers, allocated and free payloads make up the whole extent |
| HeapTheorems.MallocFinds | P1/src/mymalloc.c:156-186 | NULL exactly when no free chunk holds the rounded request, and then nothing changes; otherwise the lowest-addressed one that does |
| HeapTheorems.MallocOutcome | P1/src/mymalloc.c:156-186 | one new 8-aligned block, at least the request and at most 15 bytes more; the other blocks stay |
| HeapTheorems.MallocZero | P1/src/mymalloc.c:161-163 | a request for 0 bytes returns NULL and changes no block |
| HeapTheorems.FreeOutcome | P1/src/mymalloc.c:188-221 | every pointer keeps the invariant; a rejected one changes nothing, an accepted one at most the block it names |
| HeapTheorems.FreeBlockOutcome | P1/src/mymalloc.c:205-220 | every live block is accepted, and is live no longer |
| HeapTheorems.FreeNull | P1/src/mymalloc.c:189-191 | freeing NULL does nothing |
| HeapTheorems.StrayFree | P1/src/mymalloc.c:193-220 | a pointer that starts no block is accepted exactly when the word before it passes for the header of an allocated chunk; then one flag bit changes, of no header |
| HeapTheorems.DisguiseIff | P1/src/mymalloc.c:205-216 | a word passes exactly when it is odd, above 1, and its size fits or makes the 64-bit end address wrap |
| HeapSpec.EndsInsideIff | P1/src/mymalloc.c:213 | the comparison of end addresses is right unless the sum wraps, and then always lets the word through |
| HeapMisuse.DetectsIff | P1/src/mymalloc.c:193-216 | in a state myfree accepts exactly the live blocks if and only if no word but their headers passes for one |
| HeapMisuse.StepIsHonestIff | P1/src/mymalloc.c:66-220 | an allocation or a free keeps that, and a store exactly when it writes no such word |
| HeapMisuse.InvalidFreesDetectedIff | P1/src/mymalloc.c:193-216 | in all states of a run myfree accepts exactly the live blocks if and only if the program never stores such a word |
| HeapMisuse.EvenStoresAreChecked | P1/src/mymalloc.c:193-216 | a program that stores even words only has every invalid free rejected |
| HeapMisuse.OffsetPointerIff | P1/src/mymalloc.c:193-216 | after malloc(16) and a store at the block's start, a free of its second word is accepted exactly when the stored word passes |
| HeapMisuse.OffsetPointerAccepted | P1/src/mymalloc.c:193-216 | two runs on which an invalid free is accepted, wherever the arena lies: the word stored is 9, or all ones |
| HeapTheorems.RunKeepsValid | P1/src/mymalloc.c:156-221 | in every state of every run the headers tile the 4096 bytes and no two adjacent chunks are free |
| HeapTheorems.RetryIsUseless | P1/src/mymalloc.c:170-172 | coalescing before the second search changes neither memory nor what the search finds |
| HeapTheorems.BlocksDisjoint | P1/src/mymalloc.c:185 | live blocks with their headers lie inside the arena and do not overlap |
| HeapTheorems.MallocKeepsPayloads | P1/src/mymalloc.c:156-186 | no word of a live payload changes |
| HeapTheorems.MallocWritesHeaders | P1/src/mymalloc.c:66-186 | malloc writes nothing but headers of the chunks it leaves |
| HeapTheorems.FreeKeepsPayloads | P1/src/mymalloc.c:188-221 | freeing a block changes no word of another live payload |
| HeapTheorems.FreeWritesHeaders | P1/src/mymalloc.c:188-221 | freeing a block writes nothing but its header and those of the chunks it leaves |
| HeapTheorems.RunsAreCanonical | P1/src/mymalloc.c:156-221 | two runs that end with the same live blocks end with the same chunk list |
| HeapTheorems.MallocThenFree | P1/src/mymalloc.c:156-221 | malloc followed by free of its result restores the chunk list |
| HeapTheorems.FreesCommute | P1/src/mymalloc.c:188-221 | frees of two blocks in either order give the same chunk list |
| HeapTheorems.FreeAllRestores | P1/src/mymalloc.c:33-39 | freeing all blocks in any order gives back the one free chunk of 4088 bytes |
| HeapTheorems.SuccessBound | P1/src/mymalloc.c:166-185 | with k live blocks and F free bytes a request rounding to a succeeds whenever F > (k+1)(a-8) |
| HeapTheorems.RunKeepsQuiet | P1/src/mymalloc.c:73-103 | a header word in a free region keeps its flag bit clear through every run that does not hand it out |
| HeapTheorems.DoubleFreeCaught | P1/src/mymalloc.c:205-209 | a second free is rejected in every later state, unless a malloc has handed out a chunk over the old header |
| NimBoard.Bouton | P4/clients/src/nimd.c:218-241 | on every board the player to move can force a win exactly when the xor of the piles is not zero |
| NimBoard.BalancingMove | P4/clients/src/nimd.c:218-231 | from a non-zero xor there is a legal move to xor zero |
| NimBoard.UnbalancingMoves | P4/clients/src/nimd.c:218-231 | from xor zero every legal move leaves a non-zero xor |
| NimBoard.MoveTakesStones | P4/clients/src/nimd.c:231-234 | a legal move takes exactly its amount off the total |
| NimGame.GameThread.FormatBoard | P4/clients/src/nimd.c:155-156 | the text of the current piles |
| NimGame.FiveText | P4/clients/src/nimd.c:155-156 | the text of a board: its five numbers, separated by single spaces |
| CText.DecimalMeans | P4/clients/src/nimd.c:155-156 | a number is printed by its digits, without leading zeros |
| NimGame.GameThread.CheckIdle | P4/clients/src/nimd.c:170-189 | the new state and messages after a message of the idle player |
| NimGame.GameThread.CheckActive | P4/clients/src/nimd.c:191-214 | the same for the active player, up to the arguments of MOVE |
| NimGame.GameThread.MakeMove | P4/clients/src/nimd.c:218-248 | the same for the two arguments of MOVE; what they do is in `LegalRequest`, `NoRequest` and `RejectionsIff` |
| NimGame.GameThread.CountStones | P4/clients/src/nimd.c:233-234 | the sum of the piles |
| NimGame.GameThread.Open | P4/clients/src/nimd.c:140-159 | the opening board and the messages before the loop |
| NimGame.GameThread.Close | P4/clients/src/nimd.c:251-262 | OVER to both players with the final board, exactly when there is a winner |
| NimGame.GameThread.Run | P4/clients/src/nimd.c:135-262 | for every sequence of events the thread's final state is that of the loop specification |
| NimReferee.OpeningIs | P4/clients/src/nimd.c:140-159 | piles 1 3 5 7 9, player 1 on turn, and the four messages with each player's number and the other's name |
| NimReferee.LegalRequest | P4/clients/src/nimd.c:216-248 | a legal MOVE of the player on turn, once heard, takes exactly that amount off exactly that pile and is recorded; the turn passes and both are told, unless no stones are left |
| NimReferee.NoRequest | P4/clients/src/nimd.c:161-227 | without one, piles, moves, turn and board stay as they are |
| NimReferee.RejectionsIff | P4/clients/src/nimd.c:179-227 | FAIL 31, 32, 33 and 10 go out exactly for a MOVE of the idle player, a pile outside 0 to 4, an amount out of range, a broken protocol, and to whom |
| NimReferee.TurnIs | P4/clients/src/nimd.c:161-248 | one turn makes exactly the move granted and sends exactly the answers, in order |
| NimReferee.LoopIs | P4/clients/src/nimd.c:161-248 | the moves of a game are exactly the legal requests heard, in order, and its messages exactly the answers, turn by turn |
| NimGameTheorems.Conservation | P4/clients/src/nimd.c:218-241 | along legal alternating moves piles plus stones taken are 25, piles stay in range, there are at most 25 moves |
| NimGameTheorems.GameIsSound | P4/clients/src/nimd.c:161-262 | in every run moves alternate and are legal, and every PLAY and OVER shows the board of its moment |
| NimGameTheorems.GameNumbers | P4/clients/src/nimd.c:143-241 | the totals, ranges, parity of the turn and bound on moves in every run |
| NimOutcome.TurnEnds | P4/clients/src/nimd.c:161-237 | which message of which player ends a game in one turn of the loop, and the winner it makes |
| NimOutcome.GameEndsIff | P4/clients/src/nimd.c:161-237 | a game is over exactly when some return of poll ended it: by a closed connection, then the opponent wins, by forfeit; by a broken protocol, then nobody; or by a MOVE that takes all stones, then its player |
| NimGameTheorems.PlayersAreInformed | P4/clients/src/nimd.c:181-247 | the last PLAY sent to each player is current, and each rejection is followed at once by a PLAY to that player |
| NimStrategy.OpeningIsWon | P4/clients/src/nimd.c:143-144 | player 1 can force a win from the server's opening board |
| NimStrategy.PlayerOneWins | P4/clients/src/nimd.c:161-262 | playing to xor zero, player 1 always has such a move, and wins a game that is over exactly when it was not ended by player 1 leaving or by a broken protocol |
| NimStrategy.PlayGame | P4/clients/src/nimd.c:135-262 | the same facts of the variables of the thread itself after any events: all moves and all messages, numbers, end, winner and reason, the strategy |
| NimWire.FrameLength | P4/clients/src/nimd.c:68-86 | payloads of at most 98 bytes are framed, longer ones refused |
| NimWire.RoundTrip | P4/clients/src/nimd.c:68-131 | receiving a sent frame consumes exactly the frame and gives the payload split at its first bar; it is rejected exactly when there is no bar |
| NimWire.StreamRoundTrip | P4/clients/src/nimd.c:68-131 | any sequence of sent payloads is received again in order, with the rest of the stream untouched |
| NimWire.TruncatedFrame | P4/clients/src/nimd.c:92-116 | a stream that ends inside a frame is reported as closed |
| NimWire.ReceivesAnnounced | P4/clients/src/nimd.c:103-131 | after a header that announces n bytes: closed if the stream ends before them, else they are consumed, and are a message exactly when the last is a bar and another comes before it and any NUL |
| NimWire.ReceivesUnannounced | P4/clients/src/nimd.c:103-115 | without such a header: closed if there are not five bytes, else invalid with five consumed |
| NimWire.OnlyFramesAreReceived | P4/clients/src/nimd.c:103-131 | a message received from a NUL-free stream is byte for byte the frame that would be sent for it |
| NimWire.Socket.ReadN | P4/clients/src/nimd.c:92-101 | exactly the requested bytes however read splits them, or failure at the end of the stream |
| NimWire.Socket.SendMsg | P4/clients/src/nimd.c:68-86 | writes exactly the frame, or nothing and fails |
| NimWire.Socket.ReceiveMsg | P4/clients/src/nimd.c:103-131 | result and bytes consumed are those of the stream parser |
| NimMessages.EveryMessageFits | P4/clients/src/nimd.c:68-78 | with names of at most 72 characters, every message of every game fits a frame |
| NimMessages.EveryMessageUnderstood | P4/clients/src/nimd.c:140-262 | type and body of every message sent say exactly what is meant, for a client that reads numbers and bars |
| NimMessages.GameArrives | P4/clients/src/nimd.c:68-262 | in every game each player receives exactly the types and bodies it was sent, in order |
| NimMessages.LobbyGameArrives | P4/clients/src/nimd.c:68-365 | the same in every game that the lobby makes in any interleaving, with nothing assumed of the names |
| NimWire.ReceivesText | P4/clients/src/nimd.c:103-131 | whatever the peer sends, type and body of a message are C strings |
| NimLobby.NameList.RegisterName | P4/clients/src/nimd.c:41-53 | adds a new name in front, refuses a name in the list |
| NimLobby.NameList.RemoveName | P4/clients/src/nimd.c:55-66 | removes the first node with the name |
| NimLobby.RemovedFacts | P4/clients/src/nimd.c:55-66 | removing from a list without duplicates removes exactly that name |
| NimLobby.StepInv | P4/clients/src/nimd.c:267-371 | every atomic step of every thread keeps the invariant |
| NimLobby.OpenOutcome | P4/clients/src/nimd.c:283-301 | an OPEN with a name of at most 72 characters goes on to register, anything else ends the thread |
| NimLobby.RegisterOutcome | P4/clients/src/nimd.c:303-309 | a name is admitted exactly when it is not in the list |
| NimLobby.EnterOutcome | P4/clients/src/nimd.c:318-371 | entering waits when nobody waits, and otherwise starts exactly one new game with the waiting player first |
| NimLobby.WakeOutcome | P4/clients/src/nimd.c:324-354 | the poll loop ends once matched, goes on when nothing came, and otherwise gives up and frees the name |
| NimLobby.GameReleaseOutcome | P4/clients/src/nimd.c:267-270 | the end of a game releases its two players and frees their names |
| NimLobby.EnteredAreServed | P4/clients/src/nimd.c:318-371 | in every interleaving a client that entered waits, or has been given a game, or gave up while waiting |
| NimLobby.TwoAreMatched | P4/clients/src/nimd.c:318-371 | of two clients that entered and did not give up, one has been given a game |
| NimLobby.Reachable | P4/clients/src/nimd.c:267-371 | the invariant holds after every interleaving |
| NimLobby.OneOwner | P4/clients/src/nimd.c:318-371 | nobody is ever held by two owners |
| NimLobby.HeldIsOwned | P4/clients/src/nimd.c:303-371 | every registered, unreleased player has exactly one owner: its handler or one seat of one game |
| NimLobby.OnlyOwnersRead | P4/clients/src/nimd.c:171-194 | a thread about to read a connection owns its player, and no two threads are about to read the same one |
| NimLobby.WaitingIsFree | P4/clients/src/nimd.c:318-331 | the waiting player is in no game |
| NimLobby.MatchedOnce | P4/clients/src/nimd.c:358-371 | a matched player never waits again and is in no other game, ever |
| NimLobby.ActiveNames | P4/clients/src/nimd.c:303-336 | the list is exactly the names of registered, unreleased players, without duplicates, and empty when there are none |
| NimLobby.OpponentsDiffer | P4/clients/src/nimd.c:358-365 | the players of every game ever made, over or not, have different names |
| NimLobby.GameNamesFit | P4/clients/src/nimd.c:291-313 | they are C strings of at most 72 characters |
| ShellTokens.TokenArray.Append | P3/src/parse.c:79-91 | appends one token, in a doubled array when it is full |
| ShellTokens.Tokenize | P3/src/parse.c:8-98 | the tokens of the line, as the laws below determine them |
| ShellTokens.TokensOfJoin | P3/src/parse.c:25-98 | tokenizing solid words joined by spaces gives those words |
| ShellTokens.CommentsIgnored | P3/src/parse.c:28-47 | a '#' anywhere ends the line |
| ShellTokens.LeadingSpaceIgnored | P3/src/parse.c:25-26 | white space in front of a line does not matter |
| ShellTokens.BlankSeparatesIff | P3/src/parse.c:49-97 | a blank separates: the tokens are those before it and those behind it, exactly when the part behind starts with no other white space, or nothing comes before |
| ShellTokens.OneToken | P3/src/parse.c:49-97 | a line without blanks and '#' is one token |
| ShellTokens.TokenText | P3/src/parse.c:49-97 | no token is empty or holds a blank or a '#' |
| ShellTokens.KindIff | P3/src/parse.c:55-71 | the kind of a token is told by its text |
| ShellParser.ParseOneSegment | P3/src/parse.c:138-184 | the inner loop's segment and position, or a syntax error, as the parser function has it |
| ShellParser.ParseJob | P3/src/parse.c:111-210 | condition and job, or NULL, are those of the parser function |
| ShellParser.ParsesCommand | P3/src/parse.c:130-209 | the tokens of every well-formed command parse to its meaning |
| ShellParser.ParseIffCommand | P3/src/parse.c:130-209 | parsing succeeds with a job exactly on the tokens of a command that means it |
| ShellParser.LineIffCommand | P3/src/shell.c:73-80 | the same for the tokens of a line |
| ShellParser.SegmentMeaning | P3/src/parse.c:155-184 | a segment means its words in order and the last redirection of each kind |
| ShellParser.CommandFits | P3/src/parse.c:120-142 | commands of at most 50 segments of at most 99 words meet the parser's precondition |
| ShellParser.ParseInvertsPrint | P3/src/parse.c:8-210 | a command with plain words, printed with redirections anywhere, is tokenized and parsed back to the same job and condition |
| ShellParser.ReadBack | P3/src/shell.c:73-80 | tokenize then parse_job, on the printed line of any command of at most 50 segments of at most 99 plain words, return its condition and job |
| ShellPipeline.WireChild | P3/src/exec.c:225-269 | a child that starts with all pipes ends with the shell's table and its own input and output |
| ShellPipeline.StagesAreWired | P3/src/exec.c:225-298 | neighbours share a pipe; the first stage reads its file, the shell's input, or /dev/null; the last writes its file or the shell's output; all other descriptors are the shell's |
| ShellPipeline.ExecuteJob | P3/src/exec.c:203-298 | the children returned and the shell have the tables of `StagesAreWired` and `OneWriterOneReader`, and the shell its own again |
| ShellPipeline.OneWriterOneReader | P3/src/exec.c:225-298 | each pipe's write end is held only by its stage as descriptor 1, its read end only by the next stage as descriptor 0, and no other pipe by anybody |
| ShellPipeline.FilesAtTheEnds | P3/src/exec.c:225-269 | what each descriptor of each child refers to: a file or /dev/null exactly at the first stage's input and the last stage's output, pipes exactly between |
| ShellPipeline.RedirectionsObeyedIff | P3/src/exec.c:225-269 | all redirections of a pipeline are in force exactly when only the first segment has an input file and only the last an output file |
| ShellPipeline.RedirectionsIgnored | P3/src/exec.c:225-269 | a command that parses and whose redirections are ignored |
| SpellDict.Hash | P2/src/spell.c:29-35 | the 32-bit loop computes the bucket of a word |
| SpellDict.BucketIs | P2/src/spell.c:29-35 | the bucket is the djb2 sum, taken without any wrap-around, modulo 2^32 and the table size |
| SpellDict.Dict.DictAdd | P2/src/spell.c:53-78 | keeps the table valid and records the word after all earlier ones |
| SpellDict.Dict.DictLookup | P2/src/spell.c:80-99 | answers from the words added so far |
| SpellDict.RecordedMeaning | P2/src/spell.c:62-75 | an entry exists exactly when some spelling was added, and is flagged exactly when a capitalized one was |
| SpellDict.LookupMeaning | P2/src/spell.c:80-99 | a word is found exactly when some added word equals it ignoring case and none of those is capitalized or the word is |
| SpellDict.OrderIrrelevant | P2/src/spell.c:53-99 | only the set of added words matters |
| SpellDict.LowercaseMatchesIff | P2/src/spell.c:62-94 | a lower-case entry matches every spelling exactly when no capitalized spelling is listed too |
| SpellDict.BothSpellingsListed | P2/src/spell.c:62-94 | the input on which the documented rule fails |
| SpellDict.ExtendedIsGood | P2/src/spell.c:57-77 | a chain keeps only words of its bucket, none twice |
| SpellDict.AddedIsRecorded | P2/src/spell.c:53-78 | extending one chain records the new word and changes the answer for no other |
| SpellScan.ShouldSkipWord | P2/src/spell.c:138-149 | skips exactly the words without a letter |
| SpellScan.NormalizeWord | P2/src/spell.c:151-173 | the loops compute the word without leading openers and trailing non-alphanumerics |
| SpellScan.NormalizeIs | P2/src/spell.c:151-173 | the normal form is the word from its first character that opens nothing to its last letter or digit |
| SpellScan.NormalizeFacts | P2/src/spell.c:138-173 | normalizing is idempotent and never empties a word with a letter |
| SpellScan.LoadDictionary | P2/src/spell.c:101-136 | the words added are the non-empty lines of the whole file, in order, cut to 255 characters, however it is read |
| SpellScan.WordAtIs | P2/src/spell.c:183-225 | a word reaches to the next separator, and its first 255 characters are kept |
| SpellScan.CheckWord | P2/src/spell.c:196-211 | at the end of a word, reports it exactly when it has a letter and its normal form is not accepted |
| SpellScan.VerdictIff | P2/src/spell.c:196-211 | a word is reported exactly when it has a letter and no word of the dictionary equals its normal form under the rule for capitals |
| SpellScan.LineCounts | P2/src/spell.c:216-221 | the line is 1 plus the number of newlines before the word |
| SpellScan.ColumnCounts | P2/src/spell.c:216-231 | the column counts the characters from the last newline |
| SpellScan.ReportsAreListed | P2/src/spell.c:183-250 | the reports are those of the misspelled words, one for each, in the order of the file |
| SpellScan.CheckFile | P2/src/spell.c:183-250 | that holds of what the loops report, for every way of cutting the file into buffers; a report is made exactly for a misspelled word, with its line, column and normal form |

## Left out

- Heap.Arena.Mymalloc: requests above 2^64-8 are excluded by its precondition; there the rounding wraps to 0, see `AlignedFacts`.
- Heap.Arena.CheckLeaks: the report is returned instead of printed at exit.
- NimGame.GameThread.Run: `poll` never fails and every write succeeds; closing the sockets and removing the names are steps of `NimLobby`.
- NimLobby.StepInv: whether a connection is closed early on a protocol error is not recorded; only reads are.
- NimLobby.NameList.RegisterName: the linked list is a sequence, so the cells and their deallocation are not modelled; the same holds for the chains of `SpellDict`.
- NimWire.Socket.ReadN: a read error counts as the end of the stream.
- ShellParser.ParseJob: jobs beyond the arrays of 100 arguments and 50 segments are excluded by its precondition, and allocation succeeds.
- ShellParser.ParseOneSegment: the same bounds.
- ShellPipeline.ExecuteJob: single-segment jobs, failing system calls, running the commands and their exit statuses.
- SpellScan.CheckFile: reports are returned instead of printed, and opening files is not modelled.
- Timing, standard error output, sockets and the listener of the server, and the test clients.
- The built-in commands, program lookup, and the skipping of `and`/`or` jobs in the shell's loop.
- Directory traversal, argument handling, locales and non-ASCII letters in the spell checker.
