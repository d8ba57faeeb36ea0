# A verified model of the VoltDB C++ client

This project models the core of the VoltDB C++ client in Dafny and proves what it is meant to do. Nothing here
runs the client; each operation of the model does what the cited lines do, and the contracts and lemmas are
checked by the Dafny verifier (`dafny verify dfyconfig.toml`).

The parts, with their files:

- **Expression evaluator** (`Expression*.dfy`). `ExpressionGrammar` has tokens, priorities and expression trees with
  their values; `ExpressionMachine` the shift-reduce machine as functions, proved to compute the trees;
  `ExpressionSoundness` that it accepts nothing else; `ExpressionExpansion` user-defined names and their termination;
  `ExpressionLoops` that exactly the cyclic definitions end in loop errors; `ExpressionBinding` which operator of any
  chain comes last, written out as sets of operators; `ExpressionParser` the parser object, whose loops change a
  stack in place and refine the machine. The arithmetic is an arbitrary function that may fail.
- **Client** (`Deframer.dfy`, `ClientState.dfy`, `ClientCalls.dfy`, `Client.dfy`). The length-prefix deframer, the
  state machine of connections and requests with its invariant over all runs, the exact outcome of every step, and
  the client object whose methods are its steps.
- **Hashes** (`Words.dfy`, `MessageBlocks.dfy`, `Sha1Block.dfy`, `Sha1.dfy`, `Sha256.dfy`, `ShaConstants.dfy`,
  `AbcBlock.dfy`, `Sha1Example.dfy`, `Sha256Example.dfy`). Streaming contexts proved against the fold over padded
  blocks of FIPS 180-4; for SHA-1 also the circular schedule and the rotating registers. The constants are proved to
  be the roots the standard takes, and the hash of "abc" the one it publishes.
- **Wire codec** (`WireFormat.dfy`, `WireBytes.dfy`, `ByteBuffers.dfy`, `ParameterState.dfy`, `ParameterCalls.dfy`,
  `ParameterSets.dfy`, `Procedures.dfy`). Growing buffers, the bytes of every type, the parameter set as a state
  machine with the exact outcome of every add and as an object, serialized calls and the router that reads them back.
- **Responses** (`Responses.dfy`, `Rows.dfy`). Decoding through shared slices, row iteration, cell offsets.
- **Numbers** (`Limbs.dfy`, `WordArithmetic.dfy`, `LongArithmetic.dfy`, `Karatsuba.dfy`, `LongDivision.dfy`,
  `SignedInts.dfy`, `DecimalDigits.dfy`, `Decimals.dfy`). Integers of any number of 64-bit words, with the word-level
  products and Knuth's division in the form without assembler, and decimals in text and wire form.
- **Connection pool** (`PoolState.dfy`, `PoolCalls.dfy`, `ConnectionPools.dfy`) and **hash ring** (`HashRing.dfy`).

How the source is rendered: exceptions are `false`, `None` or error results. An `assert` of the source is a
precondition. Hash functions, arithmetic on values, the null test of doubles, the outcome of running an event loop
once, and whether a connection attempt succeeds are parameters. Connection ids are never used twice. User callbacks
neither throw nor call back into the client. Whether the response constructor accepts a message of nine bytes or more
is a parameter of the client; a shorter message is never accepted. Every pool operation holds the pool's lock, so a
run of many threads is a sequence of operations, each with its thread as a parameter.

Three things the code does not do as its comments or callers suggest; each has the exact condition:

- After a lost connection the outstanding counter is one too low for good, because the notification callback is
  taken off it without having been added (`ClientState.CounterIsExact`, `ClientState.DrainSeesZero`).
- SHA-1's bit count gets a carry too many for some pieces of 2^29 bytes and more (`Sha1.HighIsExact`,
  `Sha1.CarryIsInvented`).
- Adding an array of doubles reserves two bytes too few and can run over the buffer; the exception leaves a part of
  the array behind, and the next message is not the encoding of its values (`ParameterState.RunsOverExactly`,
  `ParameterState.EveryMessageDecodes`, `ParameterState.TornMessage`).

Also: division of the minimum by -1 returns the minimum without a carry (`SignedInts.Int.Div`); array counts of
2^15 and more do not survive (`WireFormat.ValueRoundTrip`); in an open parameter set a refused add still declares a
parameter (`ParameterState.SurplusNeedsDeclaration`); a message the response constructor rejects ends the read loop
with its exception (`Deframer.FramesAreRead`). The surplus-null check in `include/ParameterSet.hpp:362` throws
a pointer, outside the function's exception specification; the model reports it as a mismatch.

## Model

| member | source | states |
|---|---|---|
| ExpressionMachine.RunIsEval | include/ttmath/ttmathparser.h:2435-2480 | For every token string and every grouping of it that respects the priority table (power to the right, all else to the left; ExpressionBinding.ChainSplits writes the table out), the stack machine yields for each top-level expression exactly the value of its tree, or the tree's first error |
| ExpressionBinding.ThreeOperands | include/ttmath/ttmathparser.h:172-216 | For all values and every two operators that can be written, `a p b q c` is worth `(a p b) q c` exactly when q is an or; an and behind anything but an or; a comparison behind anything but an or and an and; a sum behind a sum, a product or a power; or a product behind a product or a power; and otherwise `a p (b q c)`: stated with sets of operators, without priorities |
| ExpressionBinding.JuxtaposedFirst | include/ttmath/ttmathparser.h:2159-2197 | A name right behind a number multiplies it, before any following operator but a power |
| ExpressionBinding.JuxtaposedLast | include/ttmath/ttmathparser.h:2159-2197 | A name right behind the second operand of an operator multiplies the whole result if that is a product, a quotient or a power, and the second operand otherwise |
| ExpressionBinding.ChainSplits | include/ttmath/ttmathparser.h:172-216 | For chains of any length: the outcome is that of the operator which every operator before it precedes and no operator behind it follows, by those sets, applied to the outcomes of the two parts, with the error of the left part first |
| ExpressionBinding.OneLast | include/ttmath/ttmathparser.h:172-216 | A chain has only one such operator |
| ExpressionBinding.Last | include/ttmath/ttmathparser.h:172-216 | Every chain with operators has such an operator |
| ExpressionBinding.TableIsLeftFirst | include/ttmath/ttmathparser.h:172-216 | The priority numbers and associativity order operators as those sets do |
| ExpressionBinding.OperandsRun | include/ttmath/ttmathparser.h:1802-1907 | A number or a name stands for its value, negated exactly behind a minus sign |
| ExpressionBinding.BracketRuns | include/ttmath/ttmathparser.h:2300-2365 | A bracket has the outcome of what is inside, negated exactly behind a minus sign |
| ExpressionBinding.CallRuns | include/ttmath/ttmathparser.h:2300-2365 | A call is made with the outcomes of its arguments in order, and its result negated exactly behind a minus sign |
| ExpressionSoundness.RunIffGrouped | include/ttmath/ttmathparser.h:2435-2480 | The machine accepts a token string with some values if and only if a grouping that respects the priority table has those values: nothing is accepted by accident |
| ExpressionSoundness.GroupingIsUnambiguous | include/ttmath/ttmathparser.h:172-216 | Two groupings of one token string have the same outcome |
| ExpressionMachine.RollUpSpine | include/ttmath/ttmathparser.h:2200-2213 | Rolling up the pending operators of a tree, whose priorities rise or are equal and right-associative, gives the tree's value with its own first error |
| ExpressionMachine.PushOperatorSpine | include/ttmath/ttmathparser.h:2159-2197 | An operator reduces exactly the tree it follows and does not belong into |
| ExpressionMachine.CloseArguments | include/ttmath/ttmathparser.h:2253-2365 | A closing bracket collects exactly the arguments pushed since its opening bracket, in order |
| ExpressionMachine.RunPrintArguments | include/ttmath/ttmathparser.h:2388-2480 | Up to the closing bracket an argument list leaves its values, separated by semicolons, on the stack |
| ExpressionSoundness.JoinForKeeps | include/ttmath/ttmathparser.h:2159-2197 | Reducing before an operator keeps the stack the reading of a grouped forest of the tokens seen so far |
| ExpressionSoundness.CloseKeeps | include/ttmath/ttmathparser.h:2300-2365 | Closing a bracket turns it and its arguments into one operand of that forest |
| ExpressionExpansion.VisitShrinks | include/ttmath/ttmathparser.h:518-527 | Marking a name that may be expanded leaves strictly fewer such names: the measure on which expansion terminates |
| ExpressionExpansion.VisitedIsTransparent | include/ttmath/ttmathparser.h:500-584 | A value obtained with some names marked as visited is the value obtained with fewer marked; the marks only turn endless expansion into errors |
| ExpressionExpansion.CyclicHasNoValue | include/ttmath/ttmathparser.h:500-584 | For tables of any tokens: a name whose expansion comes back to itself through any mixture of variables and functions yields an error, never a value |
| ExpressionExpansion.AliasLoop | include/ttmath/ttmathparser.h:500-515 | Variables that rename one another in a circle end in the loop error itself, whatever the arithmetic |
| ExpressionLoops.VariableIffAcyclic | include/ttmath/ttmathparser.h:500-584 | With definitions that read as trees of known names, and arithmetic and built-in functions that do not fail, a variable has a value if and only if its expansion reaches no cycle; if it does, the error is a loop error |
| ExpressionLoops.FunctionIffAcyclic | include/ttmath/ttmathparser.h:500-584 | The same for the call of a user-defined function with any arguments of the right number, its local names excepted |
| ExpressionLoops.CyclicEndsInLoop | include/ttmath/ttmathparser.h:518-547 | A name on a cycle of any mixture of variables and functions ends in the variable or the function loop error, and in no other |
| ExpressionLoops.ExprFails | include/ttmath/ttmathparser.h:549-584 | An expression that fails ends in a loop error, and some name in it is marked as visited or leads, through definitions that all need one another, to a marked name |
| ExpressionExpansion.LocalsBind | include/ttmath/ttmathparser.h:1446-1484 | Inside a user-defined function the i-th local name stands for the i-th argument |
| ExpressionExpansion.RunExtends | include/ttmath/ttmathparser.h:635-656 | A machine run that succeeds keeps its values when more names have values |
| ExpressionParser.Parser.TryRollingUpStack | include/ttmath/ttmathparser.h:2200-2213 | The in-place loop leaves the stack of the functional roll-up, or its error |
| ExpressionParser.Parser.TryRollingUpStackWithOperatorPriority | include/ttmath/ttmathparser.h:2159-2197 | The in-place loop reduces as the functional machine does before an operator |
| ExpressionParser.Parser.HowManyParameters | include/ttmath/ttmathparser.h:2253-2297 | Finds the bracket and the number of parameters two apart above it, as the functional scan does, with its errors |
| ExpressionParser.Parser.RollingUpFinalBracket | include/ttmath/ttmathparser.h:2300-2365 | Replaces the innermost bracket by its value or by the result of its call, sign included |
| ExpressionParser.Parser.RecurrenceParsing | include/ttmath/ttmathparser.h:549-584 | A nested parser yields the expansion of the definition, and the visited sets are as before on return |
| ExpressionParser.Parser.GetValueOfVariable | include/ttmath/ttmathparser.h:593-656 | Local variables before user-defined ones before built-in ones, as the expansion specifies |
| ExpressionParser.Parser.CallFunction | include/ttmath/ttmathparser.h:1446-1515 | User-defined functions with their arguments bound to local names, before built-in ones |
| ExpressionParser.Parser.ReadValueVariableOrFunction | include/ttmath/ttmathparser.h:1802-1907 | Reads an operand, a signed bracket or a call so that the run goes on unchanged from there |
| ExpressionParser.Parser.ReadOperatorAndCheckFinalBracket | include/ttmath/ttmathparser.h:2388-2421 | Closes brackets until an operator, a semicolon or the end, as the machine does |
| ExpressionParser.Parser.ParseInput | include/ttmath/ttmathparser.h:2435-2480 | The main loop yields the stack of the functional run of the whole input |
| ExpressionParser.Parser.NormalizeStack | include/ttmath/ttmathparser.h:2492-2513 | Keeps exactly the values, in order |
| ExpressionParser.Parser.Nested | include/ttmath/ttmathparser.h:2545-2580 | The copy has the same tables and visited names, and the given locals |
| ExpressionParser.Parser.Parse | include/ttmath/ttmathparser.h:2677-2699 | Parsing yields the values the machine yields for the parser's tables, or its error; what these are, RunIsEval, RunIffGrouped and ThreeOperands say |
| Deframer.ChunkingIsIrrelevant | src/ClientImpl.cpp:786-861 | For every stream of bytes, well formed or not, and every test the response constructor may make: however the bytes are cut into arrivals, the same messages are handed out, the loop ends with an exception alike, and otherwise the same leftover bytes, awaited length and mode remain |
| Deframer.LoopSplits | src/ClientImpl.cpp:786-861 | Reading what is there first and the rest later does not change the outcome |
| Deframer.LoopReadsFrames | src/ClientImpl.cpp:796-808 | One pass over any part of a stream of frames hands out exactly the messages completed in it, up to the first one the constructor rejects, where it stops as broken |
| Deframer.FramesAreRead | src/ClientImpl.cpp:796-809 | However any part of the frames arrives, the messages handed out are the complete ones up to the first unreadable one, and the loop is broken if and only if there is one |
| Deframer.DeframesExactly | src/ClientImpl.cpp:786-861 | Every way of receiving every part of the frames hands out exactly the messages completed in it without an exception, if and only if the response constructor accepts every message |
| ClientState.Run | src/ClientImpl.cpp:395-954 | The invariant holds after every sequence of events: the connection vector is duplicate-free and equals the keys of the context and callback maps, pressure is on live connections only, all live connections joined one cluster instance, and every table holds its notification entry and the requests waiting on it |
| ClientState.StepKeeps | src/ClientImpl.cpp:395-954 | Every event keeps that invariant |
| ClientState.TablesAgree | src/ClientImpl.cpp:404-427 | In every reachable state the vector lists each live connection once and has the keys of both maps, pressure is on live connections only, and any two live connections joined the same cluster instance |
| ClientState.EveryRequestInOnePlace | src/ClientImpl.cpp:635-756 | In every reachable state a request is either waiting in the table of the live connection it was sent on, and has fired zero times, or has fired exactly once |
| ClientState.ResponseAnswersOwnRequest | src/ClientImpl.cpp:809-838 | A response fires the request with its id if and only if that request waits on the same connection |
| ClientState.LossAnswersAll | src/ClientImpl.cpp:894-926 | A loss fires every request waiting on the connection once, and no other |
| ClientState.StepExtends | src/ClientImpl.cpp:786-942 | No event takes back where a request was sent or that it was answered |
| ClientState.SentIsLive | src/ClientImpl.cpp:611-632 | An asynchronous request is recorded on a live connection whatever the host map says, or nothing is recorded but that it waits; when it is sent and where, ClientCalls.AsyncOutcome and ClientCalls.AsyncSends say |
| ClientCalls.AsyncOutcome | src/ClientImpl.cpp:635-691 | The exact condition of every outcome: no connections, too many requests, a ring that is not elastic, and else sent if an unpressured connection exists or the request is queued anyway, and blocked if not; the refusals change nothing |
| ClientCalls.AsyncSends | src/ClientImpl.cpp:694-756 | A request that is sent takes the next number and waits on exactly one table; the numbers and the counter go up by one, nothing else changes but the index and the pressure of a full buffer; the connection is that of its home if it is live, and else the first unpressured one in turn, or the one behind a full round |
| ClientCalls.AsyncWaits | src/ClientImpl.cpp:641-691 | A call that has to wait keeps its number and went once round the connections; nothing else changes |
| ClientCalls.ResumeOutcome | src/ClientImpl.cpp:641-756 | A waiting call is sent exactly when the limit allows and an unpressured connection exists, or it is queued anyway, then under its own number and by the same choice of connection |
| ClientCalls.SyncOutcome | src/ClientImpl.cpp:570-592 | A synchronous call fails exactly without connections, and else is sent on the connection the index is at, pressed or not, and moves the index on |
| ClientCalls.LoginJoins | src/ClientImpl.cpp:395-427 | A login at another cluster is turned away; every other joins the vector, both maps and the host map, and changes nothing else |
| ClientCalls.DrainedIsFree | src/ClientImpl.cpp:944-954 | A drained connection is no longer under pressure, and the next call within the limit is sent |
| ClientCalls.ArrivalAnswers | src/ClientImpl.cpp:786-861 | Bytes that arrive answer, once each, exactly the requests that wait on the connection and are named by a message the bytes complete |
| ClientCalls.ResponsesAnswer | src/ClientImpl.cpp:796-838 | Encoded responses in frames, any number of them, answer exactly the waiting requests whose numbers they carry |
| ClientCalls.LossEnds | src/ClientImpl.cpp:862-942 | A loss, unless an unreadable message comes first, answers every request waiting on the connection once and no other, and removes the connection from the vector and all maps and no other |
| ClientState.ResumedIsLive | src/ClientImpl.cpp:635-690 | A call that waited goes on as soon as the limit allows and an unpressured connection exists, and then to a live connection; until then nothing is recorded |
| ClientState.LoseExtends | src/ClientImpl.cpp:862-942 | A loss keeps what was sent and answered; it is carried out only if the bytes read before it were readable |
| ClientState.ScanFinds | src/ClientImpl.cpp:694-742 | Going once round the vector finds an unpressured connection if and only if there is one |
| ClientState.CounterIsExact | src/ClientImpl.cpp:748-749 | Over every run the counter plus the number of losses is the number of user callbacks waiting in all tables, and each table has its notification entry |
| ClientState.DrainSeesZero | src/ClientImpl.cpp:974-981 | With nothing pending, the counter is zero if and only if no connection was ever lost |
| ClientState.DrainMissesZero | src/ClientImpl.cpp:894-905 | One login and its loss leave the counter at minus one with nothing pending |
| ClientState.AsyncStaysInLimit | src/ClientImpl.cpp:643-654 | Without synchronous calls the counter never exceeds its limit |
| Client.ClientImpl.FinalizeAuthentication | src/ClientImpl.cpp:395-427 | Adds the connection to all tables, or turns it away when it belongs to another cluster instance |
| Client.ClientImpl.NextUnpressured | src/ClientImpl.cpp:694-742 | The modular loop returns an unpressured connection if and only if one exists |
| Client.ClientImpl.Invoke | src/ClientImpl.cpp:635-756 | The asynchronous call is sent exactly if there are connections, fewer requests outstanding than allowed, an elastic ring, and an unpressured connection or a listener that queues anyway; then the request waits on the connection of its home or the first unpressured one in turn; in every case it is one step of the state machine |
| Client.ClientImpl.InvokeAgain | src/ClientImpl.cpp:641-691 | A waiting call tries again after the event loop ran, as the step does, whose outcomes ClientCalls.ResumeOutcome gives |
| Client.ClientImpl.InvokeAndWait | src/ClientImpl.cpp:570-592 | The synchronous call is one step of the state machine, whose outcomes ClientCalls.SyncOutcome gives |
| Client.ClientImpl.Route | src/ClientImpl.cpp:611-632 | Uses the mapped connection only while it is live |
| Client.ClientImpl.Dispatch | src/ClientImpl.cpp:809-838 | Looks up, counts and runs the callback of one response as the step does; unknown ids change nothing |
| Client.ClientImpl.RegularReadCallback | src/ClientImpl.cpp:786-861 | Bytes arriving is one step: messages cut out by the loop and answered in order, and the exception of an unreadable one passed on |
| Client.ClientImpl.RegularEventCallback | src/ClientImpl.cpp:862-942 | A loss is one step: what was read is answered, then everything still waiting, then the connection is removed everywhere; an unreadable message stops it before that |
| Client.ClientImpl.RegularWriteCallback | src/ClientImpl.cpp:944-954 | A drained connection is no longer under pressure, and nothing else changes |
| Words.SwapReads | src/sha1.c:101-102 | Loading a word on a little-endian machine and swapping it reads a big-endian word |
| Words.SwapStores | src/sha256.cpp:118-128 | Swapping a word and storing it writes a big-endian word |
| MessageBlocks.FoldAppend | src/sha1.c:212-219 | Folding the compression over whole blocks can be interrupted after any of them |
| MessageBlocks.AbsorbBlock | src/sha1.c:212-214 | A filled buffer compressed continues the fold over the message |
| MessageBlocks.PadFits | src/sha1.c:239-243 | The padding of FIPS 180-4, section 5.1.1, ends on a block boundary and is the shortest that does |
| MessageBlocks.Copy | src/sha1.c:213-221 | Copies the given range and nothing else |
| Sha1Block.NextWordIsW | src/sha1.c:101-105 | The word put into the sixteen-word circle in round t is word t of the 80-word schedule |
| Sha1Block.CircularStep | src/sha1.c:104-105 | Overwriting a slot keeps the other fifteen words the latest of their residue |
| Sha1Block.MacroIsRound | src/sha1.c:107-112 | A macro on registers in rotated roles is a round of section 6.1.2 of FIPS 180-4 on shifted variables |
| Sha1.Transform | src/sha1.c:129-184 | For every state and block the in-place circular schedule and rotating registers compute the standard's compression, and leave the last sixteen schedule words in the block |
| Sha1.LowIsExact | src/sha1.c:210-210 | The low count word is the number of bits modulo 2^32 |
| Sha1.HighIsExact | src/sha1.c:210-211 | The high count word is right after a piece if and only if the piece is shorter than 2^29 bytes or there is a carry |
| Sha1.CarryIsInvented | src/sha1.c:210-211 | When it is wrong it is one too high: a carry is invented, none is ever lost |
| Sha1.InventedAtOnce | src/sha1.c:210-211 | A first piece of 2^29 bytes leaves 2 in the high word, not 1 |
| Sha1.Sha1Context.constructor | src/sha1.c:188-197 | Starts with nothing absorbed and an exact count |
| Sha1.Sha1Context.Update | src/sha1.c:201-226 | Whatever the piece, the context has absorbed the message so far and the piece; the count stays exact if and only if the carry was seen |
| Sha1.Sha1Context.Final | src/sha1.c:230-259 | Whatever the count, the digest is the compression fold over the message, the bit 1, the zeros of the standard (fewer than 64 bytes) and the count kept; with an exact count it is the standard's hash; the context is wiped |
| Sha256.MacrosAgree | src/sha256.cpp:69-70 | The choice and majority macros are the functions of FIPS 180-4 |
| Sha256.Schedule | src/sha256.cpp:216-243 | The moving pointers compute the 64 schedule words |
| Sha256.Guts | src/sha256.cpp:245-418 | The sequential assignments of 64 rounds compute the standard's compression |
| Sha256.CountIsExact | src/sha256.cpp:435-461 | The bit count is exact modulo 2^64 however it is added up |
| Sha256.PadCount | src/sha256.cpp:477-481 | 120 less the buffered bytes, or 56 less them, is one more than the zeros of the standard's padding |
| Sha256.Sha256Context.Update | src/sha256.cpp:420-469 | For any piece the context has absorbed the message so far and the piece |
| Sha256.Sha256Context.LengthPad | src/sha256.cpp:483-483 | The swapped 64-bit count is the standard's length field |
| Sha256.Sha256Context.Finalize | src/sha256.cpp:471-496 | The digest is the compression fold over the padded message, however it was cut into updates; that the fold is the standard's, ShaConstants and Sha256Example.HashOfAbc say |
| Sha256.ComputeSha256 | src/sha256.cpp:499-505 | The digest of the whole input by FIPS 180-4, whose constants ShaConstants.RoundConstants and InitialValue give |
| ShaConstants.RoundConstants | src/sha256.cpp:89-106 | Each of the 64 constants is the first 32 bits of the fraction of the cube root of the prime of its place (section 4.2.2 of FIPS 180-4), stated by cubes of integers |
| ShaConstants.TableIsPrimes | src/sha256.cpp:89-106 | The table of primes for that ascends and holds exactly the primes up to 311 |
| ShaConstants.InitialValue | src/sha256.cpp:195-202 | The initial value is the fractions of the square roots of the first eight primes (section 5.3.3) |
| ShaConstants.Sha1Constants | src/sha1.c:108-112 | The four constants of SHA-1 are 2^30 times the square roots of 2, 3, 5 and 10, rounded down (section 4.2.1) |
| Sha256Example.HashOfAbc | src/sha256.cpp:66-106 | The hash of "abc" by the model is the published one, through all 48 schedule words and 64 rounds |
| Sha1Example.HashOfAbc | src/sha1.c:99-112 | The same for SHA-1, through 64 schedule words and 80 rounds |
| WireFormat.IntRoundTrip | include/ByteBuffer.hpp:155-222 | An integer written in w bytes is read back if and only if it fits w bytes signed |
| WireFormat.ReadBytesBack | include/ByteBuffer.hpp:258-266 | A length-prefixed string is read back and nothing behind it is touched |
| WireFormat.ValueRoundTrip | include/ParameterSet.hpp:69-369 | An added parameter decodes to itself and takes exactly its own bytes, if and only if its array count survives the cast to 16 bits (32 for TINYINT) |
| WireFormat.ParametersRoundTrip | include/ParameterSet.hpp:416-480 | A parameter list decodes to its values with nothing left over if and only if no count in it is cut off |
| WireFormat.ParametersConsume | include/ParameterSet.hpp:432-441 | Whatever bytes decode as a list of parameters with nothing left over, they are as many as the encoding of that list has |
| WireFormat.TagsAreDistinct | include/WireType.h:30-42 | Every type is found from its tag; the tags are in WireBytes.ScalarBytes and WireBytes.BlobBytes |
| WireBytes.IntBytes | include/ByteBuffer.hpp:161-226 | Byte i of an integer of any width is the value divided by the power of 256 of its place, modulo 256, high byte first, for negative values too |
| WireBytes.ScalarBytes | include/WireType.h:30-42 | The bytes of a number of each type: 3, 4, 5, 6, 8, 11 or 22, then the value |
| WireBytes.BlobBytes | include/ParameterSet.hpp:69-81 | The bytes of a string (9) and of a binary (25): four bytes of length, then the contents; a null is the byte 1 |
| WireBytes.NumbersBytes | include/ParameterSet.hpp:148-353 | The bytes of an array of each type: that of -99, that of the type, the number of elements in two bytes, for TINYINT in four, and the elements |
| WireBytes.BlobsBytes | include/ParameterSet.hpp:88-109 | The same for arrays of strings and of binaries |
| WireBytes.RequestExample | include/Procedure.hpp:67-75 | One whole request byte by byte: length, version, name, client data, parameter count, parameter |
| WireBytes.ResponseExample | include/InvocationResponse.hpp:94-125 | One whole response byte by byte, with a status string, an application status string, an exception and a table |
| ByteBuffers.DoubledIsMultiple | include/ByteBuffer.hpp:452-465 | The grown capacity is the old one times a power of two |
| ByteBuffers.DoubledIsLeast | include/ByteBuffer.hpp:452-465 | No smaller such multiple covers the request |
| ByteBuffers.DoubledInRange | include/ByteBuffer.hpp:452-465 | Doubling stays in 32 bits for every request up to 2^30 |
| ByteBuffers.DoubledFrom8192 | include/ByteBuffer.hpp:452-465 | From 8192 it stays in 32 bits for no other request |
| ByteBuffers.ByteBuffer.CheckGetPutIndex | include/ByteBuffer.hpp:102-109 | Reserves bytes exactly when they fit between position and limit; otherwise nothing moves |
| ByteBuffers.ByteBuffer.Put | include/ByteBuffer.hpp:135-138 | Appends to the log exactly when the bytes fit, and changes no other byte |
| ByteBuffers.ByteBuffer.PutAt | include/ByteBuffer.hpp:139-142 | Overwrites exactly the given bytes below the limit, or fails and changes nothing |
| ByteBuffers.ByteBuffer.PutInt | include/ByteBuffer.hpp:161-222 | Appends the encoded integer |
| ByteBuffers.ByteBuffer.PutBytes | include/ByteBuffer.hpp:305-311 | Appends length and bytes when both fit |
| ByteBuffers.ByteBuffer.PutBuffer | include/ByteBuffer.hpp:144-153 | Appends what another buffer has left and uses it up |
| ByteBuffers.ByteBuffer.Get | include/ByteBuffer.hpp:129-131 | Takes the next bytes exactly when they are there |
| ByteBuffers.ByteBuffer.GetInt | include/ByteBuffer.hpp:155-212 | Reads off the front as the pure reader does |
| ByteBuffers.ByteBuffer.GetAt | include/ByteBuffer.hpp:111-116 | Reads at an index exactly when the range lies below the limit |
| ByteBuffers.ByteBuffer.GetIntAt | include/ByteBuffer.hpp:158-217 | The integer at an index below the limit |
| ByteBuffers.ByteBuffer.Flip | include/ByteBuffer.hpp:118-122 | What was written becomes what can be read |
| ByteBuffers.ByteBuffer.SetPosition | include/ByteBuffer.hpp:333-336 | Moves exactly within the limit, and what is left starts there |
| ByteBuffers.ByteBuffer.SetLimit | include/ByteBuffer.hpp:349-355 | Changes the limit exactly within the capacity |
| ByteBuffers.ByteBuffer.Slice | include/ByteBuffer.hpp:507-511 | A window over what is left that shares the bytes; the position moves to the limit |
| ByteBuffers.ByteBuffer.EnsureCapacity | include/ByteBuffer.hpp:452-465 | Keeps every byte below the position and ends with the least doubled capacity, without leaving 32 bits |
| ByteBuffers.ByteBuffer.EnsureRemaining | include/ByteBuffer.hpp:442-446 | With the limit at the capacity there is room afterwards, and the log is unchanged |
| ParameterState.StepKeepsInv | include/ParameterSet.hpp:69-480 | Every add, refused add, null, reset, serialization and overflow keeps each value matched with its declared type, the body equal to the encoded values when nothing ran over, and the buffer large enough for it |
| ParameterCalls.AddOutcome | include/ParameterSet.hpp:69-353 | Adding a value is a mismatch exactly when the parameter at its place has another type or arrayness, or there is none and the signature is closed; it runs over exactly when the encoding is longer than the room reserved; else the values gain exactly it and the body gains exactly its encoding |
| ParameterCalls.NullOutcome | include/ParameterSet.hpp:361-369 | A null is one more value and one byte, unless there is already a value too many |
| ParameterCalls.TypedNullOutcome | include/ParameterSet.hpp:69-81 | A null string or binary is accepted exactly where a string or binary is, as the null byte |
| ParameterCalls.ResetOutcome | include/ParameterSet.hpp:416-441 | A reset forgets exactly the values; a serialization needs a value for every declared type, gives the count and the body, and closes the signature |
| ParameterState.EveryMessageDecodes | include/ParameterSet.hpp:416-480 | Over any sequence of operations every message has one value of the declared type, or null, per declared parameter, and decodes to these if and only if no add ran over the buffer since the last reset and no count is cut off |
| ParameterState.SurplusIsStuck | include/ParameterSet.hpp:361-369 | With a closed signature a surplus null blocks every operation but the reset |
| ParameterState.SurplusNeedsDeclaration | include/ParameterSet.hpp:469-480 | With an open signature only a typed add changes anything; it is refused but declares the parameter the null then stands for |
| ParameterState.ReservationIsExact | include/ParameterSet.hpp:69-369 | Every adder reserves exactly what it writes, but arrays of doubles reserve two bytes less |
| ParameterState.OnlyDoublesRunOver | include/ParameterSet.hpp:340-353 | No other adder can run over the buffer |
| ParameterState.RunsOverExactly | include/ParameterSet.hpp:340-353 | Room for 8n+2 or 8n+3 bytes after growing is the exact condition under which an array of n doubles, and no other value, is longer than the room |
| ParameterState.TornSinceReset | include/ParameterSet.hpp:416-420 | After an operation torn bytes are there if and only if it ran over, or they were there and it was neither a reset nor a serialization |
| ParameterState.ImageDecodes | include/ParameterSet.hpp:432-441 | The bytes of a state decode to its values with nothing left over if and only if nothing ran over and no count is cut off |
| ParameterState.TornMessage | include/ParameterSet.hpp:340-353 | A run: behind two TINYINT parameters in a new buffer 1023 doubles run over; a caller that then adds one double instead gets a message that does not decode to the three values |
| ParameterSets.ParameterSet.Signature | include/ParameterSet.hpp:453-459 | A new set holds the declared count and no values |
| ParameterSets.ParameterSet.Dynamic | include/ParameterSet.hpp:461-463 | An open set has an empty buffer, without a count, before the first reset |
| ParameterSets.ParameterSet.DoReset | include/ParameterSet.hpp:416-420 | Whatever the buffer held, it holds the declared count and no values |
| ParameterSets.ParameterSet.ValidateType | include/ParameterSet.hpp:465-480 | Declares the type when the signature is open and used up, and accepts exactly the declared type; the count in the buffer follows |
| ParameterSets.ParameterSet.AddScalar | include/ParameterSet.hpp:134-333 | Appends exactly the encoding and counts the value if its type is expected at the current place, and otherwise refuses it; in every case it is one step of the state machine |
| ParameterSets.ParameterSet.AddBytes | include/ParameterSet.hpp:69-81 | A string, a binary or a null in their place is accepted exactly if the type is expected at the current place, and then the values gain exactly it and the body exactly its encoding; in every case it is one step of the state machine |
| ParameterSets.ParameterSet.AddScalars | include/ParameterSet.hpp:148-353 | The same for arrays of numbers; overflow happens if and only if the type is accepted and the grown buffer is short of the encoding, and leaves the torn bytes in the set, which every operation goes on with |
| ParameterSets.ParameterSet.AddBlobs | include/ParameterSet.hpp:88-108 | The same for arrays of strings and binaries |
| ParameterSets.ParameterSet.AddNullValue | include/ParameterSet.hpp:361-369 | Appends a null unless a surplus one is already there |
| ParameterSets.ParameterSet.GetSerializedSize | include/ParameterSet.hpp:422-427 | The size of the encoded parameters, if each declared one has a value |
| ParameterSets.ParameterSet.SerializeTo | include/ParameterSet.hpp:432-441 | Moves exactly the encoded parameters to the other buffer, resets, and closes the signature |
| Procedures.RequestSize | include/Procedure.hpp:55-60 | The request is as long as the computed size |
| Procedures.CallRoundTrip | include/Procedure.hpp:67-75 | A serialized call decodes to its name, client data and values if and only if no count is cut off and no add ran over |
| Procedures.GetSerializedSize | include/Procedure.hpp:55-60 | The computed size, if every declared parameter has a value |
| Procedures.SerializeTo | include/Procedure.hpp:67-75 | A buffer of the computed size is filled exactly, with a prefix of that size minus four |
| Procedures.RouterRecovers | src/Distributer.cpp:109-128 | On every serialized call, torn ones too, the router gets exactly the first parameter: the sign-extended integer, the string bytes, or -1; -1 for any later parameter; an exception without parameters |
| Procedures.ParseRecovers | src/Distributer.cpp:61-106 | The same for one parameter in front of any bytes |
| Procedures.ParseParameterAt | src/Distributer.cpp:61-106 | Reading by index agrees on all bytes with reading off the front |
| Procedures.GetHashedPartition | src/Distributer.cpp:109-128 | Reading by index agrees on all bytes with reading off the front, skipped client data included |
| Responses.TakeSlice | include/TableIterator.h:77-81 | Lowering the limit, slicing and restoring gives exactly the length-prefixed block, and the buffer goes on behind it |
| Responses.TableIterator.HasNext | include/TableIterator.h:60-66 | True exactly while rows are left, and then bytes are left |
| Responses.TableIterator.Next | include/TableIterator.h:73-84 | Succeeds exactly once for each row, in order; the row's window starts behind its length and ends where the next begins |
| Responses.ReadSchema | src/Table.cpp:29-44 | The columns with their types and names |
| Responses.Table.constructor | src/Table.cpp:28-49 | Reads columns, row start and row count of any encoded table |
| Responses.Table.Iterator | src/Table.cpp:55-58 | Every iterator starts at the first row, wherever an earlier one left the shared position |
| Responses.Table.Rows | include/TableIterator.h:60-84 | Iterating yields all rows, and yields them again |
| Responses.BitsOfFields | include/InvocationResponse.hpp:100-114 | The three presence bits tell which optional parts are there |
| Responses.ClientDataInPlace | src/ClientImpl.cpp:809-812 | The request id of every response lies where the client looks for it |
| Responses.TakeTables | include/InvocationResponse.hpp:115-124 | The loop decodes every table, each in a window behind the one before, and restores the limit |
| Responses.InvocationResponse.constructor | include/InvocationResponse.hpp:94-125 | For every response the constructor gets back each field, absent strings as empty, skips the exception, and decodes all tables, using the whole message |
| Rows.CellAtOffset | include/Row.hpp:507-548 | At the sum of the preceding widths a row holds the cell |
| Rows.Row.EnsureCalculatedOffsets | include/Row.hpp:507-548 | Every cached offset is the sum of the preceding encoded widths |
| Rows.Row.GetOffset | include/Row.hpp:550-556 | The offset of the column, computed or cached |
| Rows.Row.GetNumber | include/Row.hpp:75-216 | In any order of calls, the written number of any column of the same or a narrower integer type, with its null flag; otherwise refused |
| Rows.Row.GetText | include/Row.hpp:224-227 | In any order of calls, the written bytes or null |
| Rows.Row.GetVarbinary | include/Row.hpp:63-66 | The length in any case, and the bytes exactly when the caller's buffer has room; a null is a success of length -1 |
| Rows.Row.IsNull | include/Row.hpp:234-263 | Holds exactly for null markers and sentinel values |
| Rows.NullCellIsNull | include/RowBuilder.h:82-115 | What a null is written as is read as null |
| Rows.RowBuilder.AddNumber | include/RowBuilder.h:52-81 | Appends the cell when the column has the type, otherwise refuses |
| Rows.RowBuilder.AddText | include/RowBuilder.h:116-128 | Appends the cell when the column has the type, otherwise refuses |
| Rows.RowBuilder.AddNull | include/RowBuilder.h:82-115 | Appends the null of the column's type |
| Rows.RowBuilder.Reset | include/RowBuilder.h:130-133 | Starts the row over |
| Rows.RowBuilder.Built | include/RowBuilder.h:52-128 | What the adders put in is what the getters of a row over the same bytes return |
| Limbs.AddRule | include/ttmath/ttmathint.h:190-207 | The carry rule after adding holds exactly when the sum is not representable, at every word count |
| Limbs.SubRule | include/ttmath/ttmathint.h:270-287 | The carry rule after subtracting holds exactly when the difference is not representable |
| WordArithmetic.AddTwoWords | include/ttmath/ttmathuint_noasm.h:105-128 | The carry out of a word is exact |
| WordArithmetic.SubTwoWords | include/ttmath/ttmathuint_noasm.h:292-311 | The borrow out of a word is exact |
| WordArithmetic.MulTwoWords | include/ttmath/ttmathuint_noasm.h:663-747 | The products of the halves make up the exact double-width product |
| WordArithmetic.LeadingDigits | include/ttmath/ttmathuint.h:2159-2208 | The quotient digit of the three leading digits by the two leading ones, in any base, is the digit of the whole numbers or one more |
| WordArithmetic.DivTwoWordsCalculate | include/ttmath/ttmathuint_noasm.h:924-963 | The correction loop ends with the greatest half word whose multiple is within the dividend |
| WordArithmetic.MultiplySubtract | include/ttmath/ttmathuint_noasm.h:967-999 | Takes off the multiple; a digit that was one too big is corrected, and the remainder is below the divisor |
| WordArithmetic.DivTwoWords2 | include/ttmath/ttmathuint_noasm.h:848-884 | Normalizing and two steps in half words give the exact quotient and remainder of two words by one |
| WordArithmetic.DivTwoWords | include/ttmath/ttmathuint_noasm.h:772-835 | The same in all three cases of the divisor |
| LongArithmetic.AddWords | include/ttmath/ttmathuint_noasm.h:141-152 | The word loop adds modulo 2^(64 n) with the exact carry, also to itself |
| LongArithmetic.SubWords | include/ttmath/ttmathuint_noasm.h:325-336 | The word loop subtracts modulo 2^(64 n) with the exact borrow |
| LongArithmetic.AddTwoInts | include/ttmath/ttmathuint_noasm.h:224-240 | Adds two words at an index and hands the carry on as far as it goes |
| LongArithmetic.PartialFits | include/ttmath/ttmathuint.h:1119-1137 | No partial sum of the schoolbook product needs more than its 2n limbs: the ignored carry never happens |
| LongArithmetic.Mul2Big | include/ttmath/ttmathuint.h:1093-1137 | The exact double-size product, with the zeros at both ends of the operands skipped |
| LongArithmetic.MulInt | include/ttmath/ttmathuint.h:822-850 | The product with one word, with a carry exactly when it is too big |
| LongArithmetic.DivInt | include/ttmath/ttmathuint.h:1473-1513 | Quotient in place and remainder by one word, at every length |
| Karatsuba.MiddleProduct | include/ttmath/ttmathuint.h:1289-1376 | One product of the sums of the halves, carries included, less the two outer products is the sum of the two mixed ones |
| Karatsuba.Mul3Big2 | include/ttmath/ttmathuint.h:1218-1376 | Karatsuba's recursion computes the exact double-size product at every size, even or odd; no ignored carry or borrow happens |
| Karatsuba.MulFastestBig | include/ttmath/ttmathuint.h:1421-1455 | Whichever algorithm is chosen, the exact double-size product |
| Karatsuba.MulFastest | include/ttmath/ttmathuint.h:1390-1412 | The product in place, with a carry exactly when it is too big |
| LongDivision.Rcl2 | include/ttmath/ttmathuint_noasm.h:504-524 | Moves all bits up: multiplication by a power of two, with the bits moved out |
| LongDivision.Rcr2 | include/ttmath/ttmathuint_noasm.h:542-563 | Moves all bits down: division by a power of two |
| LongDivision.Div3Calculate | include/ttmath/ttmathuint.h:2159-2208 | The correction loop ends with the greatest word whose multiple of the two leading divisor words is within the three leading dividend words, though its remainder wraps around |
| LongDivision.Div3MultiplySubtract | include/ttmath/ttmathuint.h:2212-2236 | Quotient digit and remainder of a window; the branch that adds the divisor back is right |
| LongDivision.TrialOneMore | include/ttmath/ttmathuint.h:2218-2231 | That branch is needed: a dividend and divisor for which the trial digit is one too big |
| LongDivision.Div3Normalize | include/ttmath/ttmathuint.h:2120-2143 | Both numbers times one power of two; the divisor's leading bit becomes the top bit of its word |
| LongDivision.Div3Digits | include/ttmath/ttmathuint.h:2033-2053 | The loop over the digits leaves quotient and remainder of a normalized division |
| LongDivision.Div3Division | include/ttmath/ttmathuint.h:2013-2061 | Knuth's algorithm D: exact quotient and remainder for every divisor of two words and more |
| LongDivision.DivCalculatingSize | include/ttmath/ttmathuint.h:1618-1648 | Tells a zero divisor, a zero, smaller or equal dividend apart, or finds both leading words |
| LongDivision.Div3 | include/ttmath/ttmathuint.h:1969-2006 | Quotient in place and remainder for every divisor but zero, which is reported and changes nothing |
| SignedInts.Int.ChangeSign | include/ttmath/ttmathint.h:105-131 | Negates; fails exactly on the minimum, which stays |
| SignedInts.Int.SetSign | include/ttmath/ttmathint.h:144-150 | Makes a value non-positive |
| SignedInts.Int.Abs | include/ttmath/ttmathint.h:171-177 | The limbs read without a sign are the absolute value, of the minimum too |
| SignedInts.Int.Add | include/ttmath/ttmathint.h:223-231 | Carry exactly on signed overflow; otherwise the sum is stored |
| SignedInts.Int.Sub | include/ttmath/ttmathint.h:302-310 | Carry exactly on signed overflow; otherwise the difference is stored |
| SignedInts.Int.Mul | include/ttmath/ttmathint.h:361-424 | Returns 0 exactly when the true product is representable, and then stores it |
| SignedInts.Int.Div | include/ttmath/ttmathint.h:441-463 | Truncates toward zero with the remainder's sign that of the dividend, for every nonzero divisor if and only if it is not minimum by -1; zero is reported, and then a negative dividend still turns the remainder negative |
| SignedInts.Int.Compare | include/ttmath/ttmathint.h:1185-1274 | The word-wise order operators agree with integer order |
| SignedInts.Int.From | include/ttmath/ttmathint.h:608-645 | Size conversion returns 0 exactly when the value is preserved, signed or unsigned |
| Decimals.OneReading | include/Decimal.hpp:59-123 | A text has at most one reading as sign, whole digits and fraction |
| Decimals.ScaledIsSmall | include/Decimal.hpp:59-123 | Every readable text has a scaled value below 10^38 in size, so two words hold it |
| Decimals.Parse | include/Decimal.hpp:59-123 | Accepts a text if and only if it has a reading, and stores exactly its value times 10^12 without overflow |
| Decimals.Padded | include/Decimal.hpp:108-110 | Padding with zeros scales the fraction to twelve digits |
| Decimals.FromDigits | include/ttmath/ttmathuint.h:2824-2865 | The value of a digit string, none of whose prefixes overflows |
| Decimals.ToText | include/Decimal.hpp:165-191 | Prints sign, whole digits and twelve fractional digits |
| Decimals.ToDigits | include/ttmath/ttmathuint.h:2763-2786 | The decimal digits without leading zeros |
| Decimals.PrintedMeans | include/Decimal.hpp:165-191 | A printed value can be read if and only if it is below 10^38 in size, and then means itself |
| Decimals.RoundTrip | include/Decimal.hpp:165-191 | Parsing the printed text returns the value if and only if it is below 10^38 in size, and is refused otherwise |
| Decimals.WireForm | include/Decimal.hpp:156-160 | The high word and the low word, each as a signed 64-bit integer, are the 16-byte big-endian form of the value |
| Decimals.SerializeTo | include/Decimal.hpp:156-160 | Appends the 16-byte form when it fits |
| Decimals.FromWire | include/Decimal.hpp:126-132 | Reading the wire form gives back every value, word for word |
| Decimals.IsNull | include/Decimal.hpp:196-200 | Null is exactly the smallest value |
| PoolState.Run | src/ConnectionPool.cpp:156-239 | The invariant holds after every interleaving of the threads' operations |
| PoolState.InOnePlace | src/ConnectionPool.cpp:123-239 | After every run each client created is in exactly one place: idle under its own identifier only, held by one thread only, or discarded |
| PoolState.ListsAreProper | src/ConnectionPool.cpp:175-200 | No thread holds two clients with one identifier, no client is listed twice, idle clients have no delegated listener |
| PoolState.AcquireGives | src/ConnectionPool.cpp:156-209 | The client given out has the identifier and is held by the thread; one taken from the idle stack is not lost; a new one only when the stack is empty; when one is given, PoolCalls.AcquireOutcome says |
| PoolCalls.AcquireOutcome | src/ConnectionPool.cpp:156-209 | A client is given exactly if the thread holds one of the name; or, from the top of the stack down, one that is neither lost nor found lost comes before any whose check throws; or none throws, all are lost, and a connection can be made |
| PoolCalls.AcquireAgain | src/ConnectionPool.cpp:175-180 | A thread that holds a client of the name gets it again, and nothing moves |
| PoolCalls.AcquireIdle | src/ConnectionPool.cpp:182-200 | Otherwise it is the topmost client that stands; those above it are gone; it listens exactly if a listener was given |
| PoolCalls.AcquireNew | src/ConnectionPool.cpp:202-209 | With the whole stack lost, a new client is made, held by the thread, listening exactly if a listener was given |
| PoolCalls.AcquireFails | src/ConnectionPool.cpp:182-200 | A check that throws first gives no client; what was popped is gone, the thread's list is as before |
| PoolCalls.AcquireNone | src/ConnectionPool.cpp:202-209 | So does a failing connection, with the stack used up |
| PoolCalls.AcquireElsewhere | src/ConnectionPool.cpp:156-209 | In every case the other stacks, the other threads' lists, the listeners of other clients and what is known of clients outside the stack stay as they are |
| PoolCalls.ReturnThenAcquire | src/ConnectionPool.cpp:222-239 | What is returned last is given out first |
| PoolState.SearchDiscards | src/ConnectionPool.cpp:182-200 | Acquiring discards only clients of that identifier that are lost or whose check threw |
| PoolState.ScriptEndReturnsAll | src/ConnectionPool.cpp:123-136 | Every client of the thread becomes idle and no other client moves |
| PoolState.ReturnWorksOnce | src/ConnectionPool.cpp:222-239 | A return succeeds exactly for a client the thread holds, takes its listener away, and does not succeed twice |
| PoolState.GiveBackKeeps | src/ConnectionPool.cpp:229-234 | Returning a client keeps the invariant |
| PoolState.GrantKeeps | src/ConnectionPool.cpp:196-198 | Handing out a client that is nowhere keeps the invariant |
| ConnectionPools.ConnectionPool.AcquireClient | src/ConnectionPool.cpp:156-209 | A client is given exactly if the thread holds one of the name, one that stands comes up before any whose check throws, or all are lost and a connection can be made; in every case it is one step of the state machine |
| ConnectionPools.ConnectionPool.TakeIdle | src/ConnectionPool.cpp:182-200 | The pop loop is the functional search |
| ConnectionPools.ConnectionPool.ReturnClient | src/ConnectionPool.cpp:222-239 | One return step, or the misplaced-client exception with nothing changed |
| ConnectionPools.ConnectionPool.CleanupOnScriptEnd | src/ConnectionPool.cpp:123-136 | One script-end step |
| HashRing.OwnerIsGreatest | include/ElasticHashinator.h:103-122 | With ascending tokens the linear scan finds the partition of the greatest token at or below the hash |
| HashRing.ElasticHashinator.constructor | include/ElasticHashinator.h:43-69 | Reads every serialized ring back |
| HashRing.ElasticHashinator.PartitionForToken | include/ElasticHashinator.h:103-122 | The binary search agrees with the linear scan, and its middle index stays in 32 bits for up to 2^30 tokens |

## Left out

- ExpressionLoops.VariableIffAcyclic: arithmetic and built-in functions that fail are excluded, because their error can come before the loop error; so for FunctionIffAcyclic and CyclicEndsInLoop.
- ExpressionExpansion.AliasLoop: a special case of CyclicEndsInLoop, without its assumption on the arithmetic.
- Karatsuba.Mul3Big2: halves are copied, where the source points into its operands and its result.
- LongDivision.Rcl2: moves by one and by two bits take the same loop here, where the source has one for single bits; so for Rcr2.
- WordArithmetic.MulTwoWords: the 32-bit platform's one multiplication and the assembler forms are not modelled; so for the other word operations.
- ParameterSets.ParameterSet.Dynamic: adding to an open set before its first reset is not modelled; the procedure object always resets before handing it out.
- ParameterSets.ParameterSet.AddScalar: requests beyond 2^30 bytes of buffer, where the source's 32-bit doubling overflows, are excluded; so for the other adders and the row builder.
- ByteBuffers.ByteBuffer.EnsureCapacity: requests beyond 2^30 bytes are excluded, where the doubled 32-bit capacity overflows; so for EnsureRemaining.
- Responses.InvocationResponse.constructor: what it does with malformed messages is not modelled; the bytes are the encoding of some response, and the client takes the test as a parameter.
- ClientState.ResumedIsLive: how often the event loop runs before a waiting call goes on is left to the events of the run.
- Rows.RowBuilder.AddNumber: calls past the last column are excluded, as the source indexes before it checks; so for the other adders.
- HashRing.ElasticHashinator.PartitionForToken: hashes below the first token are excluded, as the source then reads in front of its array.
- The percent operator, reading names and numbers from characters, and the stop object of the expression parser.
- libevent, sockets, timers, watermarks, the wakeup pipe and logging; arrivals and losses are events of the model.
- Event-loop re-entrancy inside calls and callbacks, and callbacks that throw.
- Wrap-around of the connection index and of request ids after 2^63 requests.
- Frames longer than the read watermark.
- Key hashing by MurmurHash3; password hashing in the client constructor.
- JSON procedure metadata, rebuilding the partition-to-host map from the topology table, and stream persistence of tables.
- Text output of rows, tables and responses; lookup of columns by name.
- Floating-point arithmetic and the transcendental functions of ttmath.
- The power function, the square root, the radix-2 algorithms for products and quotients, and the conversions with single words of the integers.
- Deletion of the pool and of clients that are no longer referenced.
