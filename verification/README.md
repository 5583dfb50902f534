# Models of the repository's algorithms and state machines

The repository collects small network programs and examples. This project models the ones that hold real
algorithms or protocols and proves what they promise. `dafny verify dfyconfig.toml` checks the whole project.

| part | files | what it models |
|---|---|---|
| socket layer | `SockState`, `SockFlags`, `SockSteps`, `SockProgress`, `SockRound`, `SockStale`, `Sockbuf`, `Filters`, `StatsRing` | the event layer of `c-cpp/onethread/sockbuf.c`: slots, the two parallel poll arrays with the listener tail, output buffers under short writes, filter chains, the re-entrant poll loop and which events it acts on, deferred slot reuse, traffic counters |
| address ranges | `Bits`, `Cidr`, `Netmask` | `other/bysin_cidr.c`, which splits an address range into aligned blocks, at every address width up to 32; `rust/cidr`, which reads a block back |
| telnet filter | `EggBuffer`, `Telnet`, `TelnetScreen`, `TelnetReader`, `TelnetReplies`, `TelnetStrip` | `c-cpp/onethread/telnet.c` over the growing buffers of `memutil.c`: the escaping writer and what a terminal shows of it, the command reader on values and what it answers, and the in-place loop with its search as written (RFC 854) |
| loans | `Loan` | `rust/loan/src/lib.rs`: the closed-form payment and the schedule rounded to cents |
| IRC messages | `IrcMessage`, `Circ` | `c-cpp/circ/circ.c`: the parser that cuts its buffer into C strings (RFC 1459, section 2.3.1), and printing as its inverse |
| command tree | `CmdTree` | `other/larne-tree_example.cc`: a trie with exact, `!R`, `!S` and abbreviated lookup |
| echo peer | `Chat` | `rust/chat/src/main.rs`: a task with a bounded intake and partial writes, and the executor that polls it |

`Bytes`, `Options` and `Sequences` hold the shared types and list operations.

## How the models are built

Code that works by changing things is a class or an array method here as well; its contract equates the new state
with a function of the old one, and the properties are lemmas about that function. Where a number or a name comes
from outside, such as a header's flag bits, a terminal's attributes, telnet commands or the letters of a protocol, a
second definition in those terms stands beside the function, and a lemma connects the two.

The socket layer's whole state is one value, `SockState.State`. `Inv` is what every step keeps; `Evolves` relates the
state before any call to the state after it, whatever callbacks did in between. Both are contracts of every method of
`Sockbuf.Sockbufs`. Besides the C fields the state carries a history per slot: how often the slot was handed out,
which bytes its writers submitted, which the kernel took and how its socket was last set; and per poll entry, how many
entries were made before it and what the last poll reported for it, in which round, for which connection and
descriptor. One call of `sockbuf_update_all` leaves a trace, the states its turns begin in, and `SockRound` is about
that. The kernel is nondeterministic: `write` takes any number of bytes, says EAGAIN or fails, and `poll` reports
anything. A callback makes any finite sequence of calls back into the layer, whose callbacks do the same; `fuel` is
the depth of that nesting and is arbitrary.

Oracles elsewhere: `vsnprintf` (two kinds of C library), the reader and writer of the chat peer, the clock of the
traffic counters, and the transformations made by filters. Addresses are natural numbers and C shifts are
arithmetic on them; `mpow` wraps at 2^32.

## Where the code differs from what it says

- The telnet writer's comment (`c-cpp/onethread/telnet.c:113` and `:170`) means the command byte 255, but the C
  literal `'\255'` is octal 173. The model takes the doubled byte as a parameter `q`. `TelnetReader.RoundTrip` says
  exactly which plain texts survive writing and reading, and `TelnetReader.RoundTripAsWritten` says it for 173.
- A NUL that does not follow a CR makes the telnet writer loop for ever (`c-cpp/onethread/telnet.c:129-135`).
  `Telnet.FilterWrite` returns `None` exactly then.
- The telnet reader searches as many bytes as its string has, from wherever it is (`c-cpp/onethread/telnet.c:58`), so
  it runs into what earlier moves left behind the string; and a command cut off by the end of a chunk is not removed
  but found again. Either way the next `memmove` has a negative length. `TelnetStrip.Session.Strip` reports that
  exactly when `RunsOver` holds of the chunk and the memory behind it; `TelnetStrip.SafeAnywhere` gives the condition
  on the chunk alone, and `TelnetStrip.OverrunWitness` a chunk of nine bytes.
- What the telnet reader leaves is not what RFC 854 leaves: "are you there" loses only its IAC
  (`c-cpp/onethread/telnet.c:61-64`). `TelnetStrip.SurvivorsStripped` says exactly when the two agree.
- `sockbuf_set_sock` clears BLOCK although bytes may be waiting (`c-cpp/onethread/sockbuf.c:476`). All later writes
  stay in order exactly if no bytes wait or BLOCK is among the new flags: `SockState.SetSockKeepsOrder`. The history
  marks the other calls as misuse.
- A socket set with BLOCK but without CONNECTING while nothing waits stays watched for POLLOUT, and no answer of the
  kernel ends that (`c-cpp/onethread/sockbuf.c:396-410`): writing nothing returns 0, for which there is no branch.
  `SockProgress.PolloutDrains` says that it is the only case in which serving POLLOUT does not come to rest, and
  `SockProgress.SetSockSticks` how it comes about.
- Formatting that a telnet write leaves switched on is not switched off at a line end of the next one, since `code`
  starts at 0 (`c-cpp/onethread/telnet.c:125` and `:152-160`). `TelnetScreen.ShowsFromPlain`: a write shows what its
  codes ask for, whatever its text, exactly if the terminal is plain when it starts.
- A telnet DO whose option is cut off by the end of a chunk is answered as one of option 0
  (`c-cpp/onethread/telnet.c:70`): `TelnetReplies.RepliesOfTokens`.
- Listeners are described as monitored (`c-cpp/onethread/sockbuf.c:682-687`), but `poll` is given `npollfds` entries
  only (`:805`), so they never are. `Sockbuf.Sockbufs.KernelPoll` follows the call.
- An entry added to the poll table gets no revents of its own (`c-cpp/onethread/sockbuf.c:508-517`): it finds those of
  the first listener, which are zero, or without listeners whatever the memory holds, and the loop acts on that. After
  a failed poll the loop acts on what older rounds left (`:806`). What a turn acts on is this call's report for that
  slot, connection and descriptor exactly if the poll succeeded and the slot has kept its entry since:
  `SockRound.GenuineIfKept`. In `SockStale.StaleRound` an accepted connection is read from, and closed, because its
  server was readable.
- The comment in `sockbuf_update_all` (`:808-812`) expects to miss the event of the next socket after a deletion.
  `SockRound.MissedForGone` counts: as many entries are passed over as have gone after their turn;
  `SockRound.MissedIffPassed` and `SockRound.PassedForRemoval` say which. `SockRound.EventsServed`: all other reported
  events are acted on.
- Acting on an event does not clear it, so that after a nested `sockbuf_update_all` the outer loop acts once more on
  what the nested one has done: `SockRound.ShowsAgain`.
- The "can't happen" comment in `sockbuf_update_all` (`:843-845`) is right when no deletion is under way around the
  outermost call. Called from an `on_delete` callback of a deletion made outside every `sockbuf_update_all`, the sweep
  leaves as many slots DELETED as there are such deletions, and can free the wrong ones: `SockState.SweepLeaves`,
  `SockState.SweepKeepsIff` with the exact condition, `SockState.SweepFreesTheWrongSlot` with a state, and
  `Sockbuf.UpdateInsideDelete` with a run that goes wrong whatever the kernel answers.
- `Loan::new` divides a rate of 0.2 or more by 100 for the schedule but not for the payment
  (`rust/loan/src/lib.rs:20-28`). `Loan.NewPaymentClears`: the payment is made for the schedule's rate exactly if the
  rate is below 0.2; as main takes it, which divides once more, if it is below 20 (`Loan.EnteredPaymentClears`).
- A loan's iterator does not end when the payment does not exceed the first interest: `Loan.EndsIff`. Nor does it for
  a discount factor of zero at a rate below zero, as without periods: the payment is then minus infinity
  (`Loan.NewPayment`).
- `other/bysin_cidr.c` prints the first address alone for a reversed range: `Cidr.Split` covers the range exactly if
  it is not reversed.
- The traffic counters credit bytes to the second of the last report before them, not to the one in which they moved,
  and a clock turned back counts no seconds. `StatsRing.Report` and `StatsRing.RightFromNowOn` say exactly when the
  figures are right, `StatsRing.LateReport` gives a case where five bytes are missed, and `StatsRing.ElapsedIsClock`
  is about the clock.
- `egg_mvsprintf` measures a text again when its length is a multiple of 1024, up to the first NUL, and then cuts its
  memory back by that length (`c-cpp/onethread/memutil.c:107-111`). `EggBuffer.Format` says exactly when the text
  survives, and `EggBuffer.CutShortWitness` gives a text of which 20 bytes are left.
- The chat peer takes the end of its input for a pause. `Chat.SleepsIffEnded`: it then sleeps for ever.
- Any error of the chat peer's writer but an interruption ends the task (`rust/chat/src/main.rs:121-124`), also that
  it would have to wait: `Chat.DoneIff`.

## Model

| member | source | states |
|---|---|---|
| Cidr.Split | other/bysin_cidr.c:14-27 | the recursive program with its bit scans, at width w, prints the canonical cover of the range; what it prints covers the range if and only if first <= last |
| Cidr.CoverIsPartition | other/bysin_cidr.c:14-27 | the cover's blocks are aligned, ascending and disjoint, and their union is exactly first..last |
| Cidr.CoverNotMergeable | other/bysin_cidr.c:14-27 | no two printed blocks are halves of one larger block |
| Cidr.CoverIsMinimal | other/bysin_cidr.c:14-27 | no list of aligned blocks that covers exactly the range is shorter |
| Cidr.CoverIsUnique | other/bysin_cidr.c:14-27 | an ascending exact cover by aligned blocks without mergeable siblings is the printed one |
| Cidr.OneSidedSize | other/bysin_cidr.c:14-27 | a range touching one end of a 2^k block needs at most max(k, 1) blocks |
| Cidr.CoverSize | other/bysin_cidr.c:14-27 | a range inside a 2^k block, k >= 2, needs at most 2(k-1) blocks: 62 for IPv4 |
| Cidr.CoverSizeReached | other/bysin_cidr.c:14-27 | the bound is tight: leaving out both end addresses needs 2(k-1) blocks |
| Cidr.InOneHalf | other/bysin_cidr.c:17-23 | an aligned block properly inside a parent lies in one of the halves, never across the split bit |
| Cidr.SplitInTwo | other/bysin_cidr.c:17-23 | when some low bit rules out a single block, the two recursive calls get adjacent ranges whose covers make up the whole one |
| Cidr.LowBitsCover | other/bysin_cidr.c:18-24 | when all bits below the highest differing one are 0 in first and 1 in last, the cover is the one block printed |
| Cidr.MPowIsPow | other/bysin_cidr.c:8-10 | repeated squaring is the power, modulo 2^32 |
| Cidr.SplitSize | other/bysin_cidr.c:8-10 | mpow(2, n) is 2^n for every bit of an address |
| Cidr.Bit | other/bysin_cidr.c:11-13 | testing against a shifted one yields that bit of the number |
| Netmask.DescribeInvertsBlock | rust/cidr/src/main.rs:24-36 | from any address of an aligned block and its mask length: network is the first address, broadcast the last, gateway the second, netmask 2^32 less the size, usable the size less two; an answer exists exactly for mask lengths 1 to 31 |
| Netmask.MaskPicksBlock | rust/cidr/src/main.rs:24-35 | an address masked with the netmask gives the network if and only if it is in the block; the gateway is in it, and not its broadcast address if it has more than two |
| SockState.AtRest | c-cpp/onethread/sockbuf.c:797-850 | the promises spelled out: bytes sent plus bytes waiting are as many as were submitted; the poll table lists exactly the live slots with a socket, once each, with their descriptor; the tail is the listeners in order; the deleted count is right. On connections not misused also: the bytes are in order, waiting ones on an open socket mean BLOCK, and POLLOUT is wanted if and only if BLOCK or CONNECTING |
| SockState.EvolvesTrans | c-cpp/onethread/sockbuf.c:797-850 | guarantees over single steps compose into guarantees over whole runs |
| SockState.WroteDelivery | c-cpp/onethread/sockbuf.c:179-204 | a write of any accepted length keeps sent ++ waiting equal to submitted, in order |
| SockState.WroteKeeps | c-cpp/onethread/sockbuf.c:179-204 | a write keeps the whole invariant, POLLOUT included |
| SockState.DrainedDelivery | c-cpp/onethread/sockbuf.c:389-410 | draining any number of bytes keeps delivery order |
| SockState.DrainedKeeps | c-cpp/onethread/sockbuf.c:389-410 | draining keeps the invariant: BLOCK and POLLOUT go exactly when the buffer empties |
| SockState.SocketSetKeeps | c-cpp/onethread/sockbuf.c:469-520 | setting, replacing or removing a socket keeps the invariant, even with an uninitialised revents |
| SockState.SetSockKeepsOrder | c-cpp/onethread/sockbuf.c:469-476 | with a socket, on a slot not misused before: every later write, of which the kernel may take any part, keeps the bytes in order if and only if no bytes wait or BLOCK is among the new flags |
| SockState.OrderAfterSetSock | c-cpp/onethread/sockbuf.c:475-477 | after a socket is set while bytes w wait, a write of which the kernel takes the part e keeps the order if and only if w ++ e == e ++ w |
| SockFlags.FlagWord | c-cpp/onethread/sockbuf.c:476-477 | for every slot and every flags, numbered as in the header: the new flag word is the old one with CONNECTING, CLIENT, SERVER, BLOCK and NOREAD cleared, or'ed with the argument |
| SockFlags.SetSockWatches | c-cpp/onethread/sockbuf.c:500-520 | with a socket, the slot's entry is for that descriptor, watched for POLLIN if and only if NOREAD is not in the argument and for POLLOUT if and only if BLOCK or CONNECTING is; the argument goes on record as what was asked |
| SockFlags.EventsByRole | c-cpp/onethread/sockbuf.c:815-830 | in any state the program reaches: POLLOUT completes a connection being made and sends on any other; POLLIN of a slot whose socket was last set with SERVER is served by an accept, and of any other by a read; an error ends the connection; what is not reported does nothing |
| SockSteps.OpenedIs | c-cpp/onethread/sockbuf.c:433-461 | a new slot has no socket, no bytes, no filters and a deaf handler, and its flag word is 1, BLOCK; it is the next generation; a grown array has four more slots, AVAIL; no other slot changes |
| SockSteps.AcceptedIs | c-cpp/onethread/sockbuf.c:374-381 | an accepted connection has the flag word 16, INBOUND, nothing waiting, and an entry for its descriptor that is watched for POLLIN only; no other slot changes |
| SockSteps.ClosedIs | c-cpp/onethread/sockbuf.c:588-599 | closing takes the socket and the entry of a valid slot and keeps what waits; no other slot changes |
| SockSteps.EndedIs | c-cpp/onethread/sockbuf.c:326-339 | when the end of a connection is announced, the slot has no socket and no entry any more |
| SockSteps.EndsWhen | c-cpp/onethread/sockbuf.c:344-431 | that is what a socket error, a failed write and a read of nothing come to |
| SockSteps.DeletedIs | c-cpp/onethread/sockbuf.c:622-653 | a deleted slot is bare, its flag word is 32, DELETED, it has no entry and is counted |
| SockSteps.CountersAre | c-cpp/onethread/sockbuf.c:656-660 | bytes read, handed to the user and written by the user are counted where they pass, the second only if no filter beyond the level reads; nothing else changes |
| SockSteps.RecipientIs | c-cpp/onethread/sockbuf.c:308-323 | an event is told to the first filter beyond the level that has the tested callback, with its own client data; without one to the user if they have the callback; else to nobody |
| SockSteps.FromOutside | c-cpp/onethread/sockbuf.h:47-55 | events of the socket pass no filter of a level the header knows, and neither do the user's writes |
| SockSteps.ReadingIs | c-cpp/onethread/sockbuf.c:548-580 | POLLIN of one entry is switched, and nothing else |
| SockProgress.PolloutDrains | c-cpp/onethread/sockbuf.c:344-410 | over any states in which POLLOUT of an open connection not misused is served whenever it is watched, with no socket error, a kernel that takes something of what waits, and callbacks that leave the connection alone: after 1 + waiting bytes services it is connected, has sent all that was submitted, and is neither blocked nor watched, if and only if it was not blocked with nothing waiting |
| SockProgress.SetSockSticks | c-cpp/onethread/sockbuf.c:476-477 | with an empty buffer it is so exactly after a socket was set with BLOCK but without CONNECTING |
| SockState.SetSockFlags | c-cpp/onethread/sockbuf.c:475-478 | with a socket, or during update_all, the tables survive a call if and only if neither DELETED nor AVAIL is among the flags |
| SockState.ShiftedOut | c-cpp/onethread/sockbuf.c:494-498 | the two memmoves remove one entry from both arrays and shift the rest, listeners included, together |
| SockState.RemoveKeepsTable | c-cpp/onethread/sockbuf.c:491-498 | after the removal the table is right for all other slots and the listener tail is whole |
| SockState.AddKeepsTable | c-cpp/onethread/sockbuf.c:501-517 | inserting an entry before the listeners keeps table, tail and reports right |
| SockState.OpenedKeeps | c-cpp/onethread/sockbuf.c:433-461 | handing out a slot, growing by five when none is free, keeps the invariant and every live slot |
| SockState.DeleteDoneKeeps | c-cpp/onethread/sockbuf.c:638-653 | wiping the slot and dropping its entry keeps the invariant and the deleted count |
| SockState.DeleteEvolves | c-cpp/onethread/sockbuf.c:601-654 | a whole deletion, whatever its callbacks did, leaves every other slot to its connection |
| SockState.PolledKeeps | c-cpp/onethread/sockbuf.c:805 | whatever poll reports, the invariant is kept: every entry made before a poll holds that poll's report for its own connection |
| SockState.PolledReport | c-cpp/onethread/sockbuf.c:805 | what poll says about an entry goes on record for its slot, the connection there and its descriptor |
| SockRound.GenuineIff | c-cpp/onethread/sockbuf.c:805-815 | in any state that keeps the invariant: what an entry shows was reported for its slot, connection and descriptor by a poll not before a given one, if and only if that poll has succeeded, the entry is older than the last one, and the slot has the descriptor that was polled |
| SockRound.GenuineIfKept | c-cpp/onethread/sockbuf.c:805-818 | for every turn of the loop, unless a callback polled: what it acts on is this call's report for that slot, connection and descriptor if and only if the poll succeeded and the slot has kept its entry and descriptor since |
| SockRound.TurnGenuineIff | c-cpp/onethread/sockbuf.c:805-818 | the same with polls in callbacks, for the last poll that succeeded since the call began |
| SockRound.NewEntryIsStale | c-cpp/onethread/sockbuf.c:505-517 | whatever a fresh entry's revents hold, the invariant is kept, they are not genuine, and the loop would act on them if and only if they are not zero |
| SockStale.StaleRound | c-cpp/onethread/sockbuf.c:505-517 | a round in which a connection accepted by a server gets the server's revents, is read from and closed, and the event of another connection is missed |
| SockRound.TurnsApart | c-cpp/onethread/sockbuf.c:813-831 | each turn looks at an entry made after that of the turn before: no entry has two turns in one call |
| SockRound.MissedForGone | c-cpp/onethread/sockbuf.c:808-831 | the loop passes over as many entries as have gone after their turn; if it ran off the table's end, fewer by what was no longer there |
| SockRound.MissedIffPassed | c-cpp/onethread/sockbuf.c:808-831 | an entry from the start that still stands is missed if and only if in some turn it moved from behind the turn's place to that place or before |
| SockRound.PassedForRemoval | c-cpp/onethread/sockbuf.c:808-831 | and it does so only in a turn in which an entry at or before that place goes |
| SockRound.EventsServed | c-cpp/onethread/sockbuf.c:805-831 | after a poll that succeeded, unless a callback polled: an entry with reported events that still stands in the end has had a turn with exactly those, if and only if it was not passed over; in particular the count of active entries never ends the loop early |
| SockRound.AllServed | c-cpp/onethread/sockbuf.c:808-831 | so if no entry goes after its turn, everything reported for an entry that still stands is acted on |
| SockRound.ShowsAgain | c-cpp/onethread/sockbuf.c:813-831 | an entry that still stands shows the same events, as genuine as before, until a later poll succeeds, whether they were acted on or not |
| SockState.LoopEvolves | c-cpp/onethread/sockbuf.c:797-833 | what holds inside the poll loop holds for the caller once the depth is back |
| SockState.NoReuseWithinRound | c-cpp/onethread/sockbuf.c:797-850 | a slot deleted while update_all runs, nested calls included, stays wiped, is not what the next search finds, has no entry, and no later event finds a recipient |
| SockState.SweepCount | c-cpp/onethread/sockbuf.c:836-847 | the early-exit sweep leaves as many DELETED slots as there are above the counter |
| SockState.SweepLeaves | c-cpp/onethread/sockbuf.c:836-847 | in any state that keeps the invariant the sweep leaves as many slots DELETED as deletions are under way; none if and only if there are none |
| SockState.SweepKeepsIff | c-cpp/onethread/sockbuf.c:836-847 | the tables survive the sweep of the outermost call if and only if every slot whose deletion is under way has as many DELETED slots before it as the counter counts |
| SockState.SweepFreesTheWrongSlot | c-cpp/onethread/sockbuf.c:836-847 | a state inside the on_delete callback of slot 0, slot 1 being deleted and counted: the sweep frees the slot being deleted and leaves the counted one DELETED |
| Sockbuf.Session | c-cpp/onethread/sockbuf.c:797-850 | after any run of calls with callbacks nested to any depth, in which no on_delete callback of a deletion made outside update_all calls update_all: FIFO delivery on every live connection not misused, the poll table exact, the deleted count right |
| Sockbuf.UpdateInsideDelete | c-cpp/onethread/sockbuf.c:601-654 | a run: two slots are opened, the on_delete callback of the first deletes the second and calls update_all; whatever the kernel answers, the first is free in the middle of its deletion and the tables are broken |
| Sockbuf.Sockbufs.UpdateAll | c-cpp/onethread/sockbuf.c:797-850 | ends although handlers add and remove entries; its trace is that of one poll and of turns over the entries 0, 1, 2 and so on, each acting on what the entry shows, until as many acted as poll counted or no entry is left; up to the sweep the invariant is kept and no slot in use issued, and after it if and only if the sweep is safe, as it is inside another call and outside every deletion; then the outermost call leaves no DELETED slot |
| Sockbuf.Sockbufs.Dispatch | c-cpp/onethread/sockbuf.c:815-828 | the three branches act one after the other on POLLOUT (connecting or not), POLLIN (server or not) and errors as the flags were at the start, and the slot stays with its connection |
| Sockbuf.Sockbufs.RealWrite | c-cpp/onethread/sockbuf.c:179-204 | a result of r >= 0 means r bytes sent now and the rest appended to the buffer, none sent when already blocked; a negative one that the connection was closed and its end announced; on a wiped slot nothing happens |
| Sockbuf.Sockbufs.OnWrite | c-cpp/onethread/sockbuf.c:293-305 | the last filter below the level with a write callback is called before anything else happens; only without one is the data written out or the end announced |
| Sockbuf.Sockbufs.WriteData | c-cpp/onethread/sockbuf.c:656-662 | a write to an invalid slot changes nothing and returns -1; else the bytes, up to the NUL for a negative length, are counted and go to the highest filter, or to the socket |
| Sockbuf.Sockbufs.GotWritable | c-cpp/onethread/sockbuf.c:389-410 | n > 0: exactly the first n waiting bytes went out, and then on_written is announced; 0: nothing; else the connection is closed and its end announced; nothing on a wiped slot |
| Sockbuf.Sockbufs.GotWritableClient | c-cpp/onethread/sockbuf.c:344-362 | an error closes and announces the end; else on_connect is announced in a state in which CONNECTING is clear and BLOCK is left if and only if it was set and bytes wait, all else of the slot being as before |
| Sockbuf.Sockbufs.GotReadableServer | c-cpp/onethread/sockbuf.c:367-384 | without a connection nothing changes; else it gets the first free slot, marked inbound, and then on_newclient is announced on the slot of the server, found by the on_connect test as in the code; nothing on a wiped slot |
| Sockbuf.Sockbufs.GotReadable | c-cpp/onethread/sockbuf.c:415-431 | n > 0: the bytes are counted and then announced as read; else the connection is closed and its end announced; nothing on a wiped slot |
| Sockbuf.Sockbufs.GotEof | c-cpp/onethread/sockbuf.c:326-339 | the slot is closed first and its end announced then; nothing on a wiped slot |
| Sockbuf.Sockbufs.Notify | c-cpp/onethread/sockbuf.c:308-323 | an event goes, before anything else happens, to the first filter beyond the level that has the tested callback, with that filter's own data, else to the user's handler; without either nothing happens but the counting of bytes read |
| Sockbuf.Sockbufs.DeleteSlot | c-cpp/onethread/sockbuf.c:601-654 | every filter with an on_delete callback and the user's handler are told, and the slot ends wiped and counted with the same generation, even if the callbacks delete or poll; an invalid one is left alone |
| Sockbuf.Sockbufs.New | c-cpp/onethread/sockbuf.c:433-461 | the first free slot, or the first of five new ones, is returned empty and blocked, and starts a new connection |
| Sockbuf.Sockbufs.SetSock | c-cpp/onethread/sockbuf.c:469-520 | the new state is the specified one, with the three different return values and, when a listener is attached, zero in a fresh entry's revents; the invariant is kept unless DELETED or AVAIL is among the flags |
| Sockbuf.Sockbufs.DetachListener | c-cpp/onethread/sockbuf.c:698-711 | the first listener of that descriptor goes, or nothing changes |
| Sockbuf.Sockbufs.AttachFilter | c-cpp/onethread/sockbuf.c:720-751 | filter and client data go in together at the same place |
| Sockbuf.Sockbufs.DetachFilter | c-cpp/onethread/sockbuf.c:771-790 | the first occurrence goes with its client data, which is returned; without one nothing changes |
| Sockbuf.Sockbufs.KernelPoll | c-cpp/onethread/sockbuf.c:805-806 | poll looks at the socket entries and not at the listeners after them |
| Filters.AttachKeepsSorted | c-cpp/onethread/sockbuf.c:732-749 | attaching keeps the levels sorted, and after all filters of the same level |
| Filters.DetachUndoesAttach | c-cpp/onethread/sockbuf.c:720-790 | detaching takes the first occurrence, with its own client data; it undoes an attach and hands back the data given with it if and only if from the first occurrence of the filter to the new one there is nothing but the same filter with the same data |
| Filters.NextUp | c-cpp/onethread/sockbuf.c:279-283 | the scan finds the first filter with the callback beyond the level |
| Filters.NextDown | c-cpp/onethread/sockbuf.c:298-302 | the downward scan finds the last filter with a write callback below the level |
| Filters.RemainingFalls | c-cpp/onethread/sockbuf.c:279-283 | each hand-over leaves strictly fewer filters beyond the level, so a chain of them ends |
| Filters.ReadOrder | c-cpp/onethread/sockbuf.c:274-290 | when filters hand on at their own level, a read meets in ascending order, once each, exactly the first reader of every level beyond |
| Filters.WriteOrder | c-cpp/onethread/sockbuf.c:293-305 | a write meets in descending order, once each, exactly the last writer of every level below |
| Filters.AllReadIffDistinct | c-cpp/onethread/sockbuf.c:279-283 | every filter that reads is met if and only if no two of them share a level |
| Filters.WriteThenRead | c-cpp/onethread/sockbuf.c:274-305 | for inverse pairs at distinct levels, reading what was written gives it back |
| StatsRing.Report | c-cpp/onethread/sockbuf.c:853-906 | for any log of events with their times: the report is what was credited in the last four counted seconds, and if the log is in order and the clock was looked at before all bytes of the current second, it is what moved in the four seconds before if and only if the clock was looked at within them before each byte; the totals are all traffic |
| StatsRing.RightFromNowOn | c-cpp/onethread/sockbuf.c:865-906 | all later reports are right if and only if each of the last four seconds in which bytes moved saw a look at the clock before them |
| StatsRing.ReportAgainstTraffic | c-cpp/onethread/sockbuf.c:865-906 | the report and the lost bytes are the traffic and the bytes credited from outside the window |
| StatsRing.LateReport | c-cpp/onethread/sockbuf.c:853-906 | five bytes arrive in second 104, the first report is made in second 105, and it is 0 |
| StatsRing.AgesAreCredited | c-cpp/onethread/sockbuf.c:865-880 | over any run the ring's bucket of age a holds exactly what was credited to the second a counted seconds ago |
| StatsRing.RecentIsCredited | c-cpp/onethread/sockbuf.c:898-906 | the sum over all buckets but the current one is what was credited to ages 1 to 4 |
| StatsRing.OlderCapped | c-cpp/onethread/sockbuf.c:869-874 | five turns of the ring are as good as any larger number |
| StatsRing.IdleTick | c-cpp/onethread/sockbuf.c:865-880 | a skip with no traffic before the next is unobservable while the clock runs forward; two skips shift like the second alone if and only if the clock ran one way |
| StatsRing.ElapsedIsClock | c-cpp/onethread/sockbuf.c:869-874 | the seconds counted are the clock's if and only if no reading was below the one before |
| StatsRing.Stats.SkipStats | c-cpp/onethread/sockbuf.c:865-880 | the loop capped at five turns agrees with the unbounded shift by age, and does nothing when the clock went back |
| StatsRing.Stats.UpdateStats | c-cpp/onethread/sockbuf.c:883-906 | after skipping, the loop over the ring sums ages 1 to 4 in both directions |
| EggBuffer.Buffer.Append | c-cpp/onethread/memutil.c:49-62 | the string is appended up to its NUL, inside the memory, and ten bytes stay free afterwards |
| EggBuffer.Format | c-cpp/onethread/memutil.c:86-113 | the retry loop ends with either kind of C library, within two attempts for a C99 one, never writes outside its memory, keeps the caller's buffer exactly when the text fits, and returns the whole text if and only if it is not cut short; else the memory ends 20 bytes after the length measured. The reported length is right if and only if it is no multiple of 1024 or the text has no NUL |
| EggBuffer.CutShortWhen | c-cpp/onethread/memutil.c:107-111 | only a text whose length was asked for and is a multiple of 1024, with a NUL inside, is cut short; if that NUL is 256 bytes or more before the end, exactly those that do not fit the caller's memory |
| EggBuffer.CutShortWitness | c-cpp/onethread/memutil.c:107-111 | any 1024 bytes that begin with a NUL are cut to 20 |
| Telnet.FilterWrite | c-cpp/onethread/telnet.c:114-205 | with 63-byte batches over the growing buffer the output is that of the byte-at-a-time transducer; the loop ends if and only if every NUL follows a CR |
| TelnetScreen.ShowsWhatIsMeant | c-cpp/onethread/telnet.c:114-205 | for every text without ESC whose NULs follow CRs: a terminal with the ANSI attribute numbers shows the writer's output, byte by byte with its attributes, as the text's control codes ask: 2 bold, 31 underlined, 22 reversed, 15 and line ends plain |
| TelnetScreen.ShowsFromPlain | c-cpp/onethread/telnet.c:125-160 | a write does so for every such text if and only if the terminal is plain when it starts |
| Telnet.EscapePlain | c-cpp/onethread/telnet.c:176-183 | a batch of such bytes passes the transducer unchanged |
| Telnet.EscapeShape | c-cpp/onethread/telnet.c:114-205 | for every input: CR only before LF, LF only after CR, the quoted byte only doubled, no BEL, no NUL |
| Telnet.FormattingClosed | c-cpp/onethread/telnet.c:152-168 | for input without ESC, a terminal reading the output has no formatting on at any line end |
| TelnetStrip.Session.Strip | c-cpp/onethread/telnet.c:57-101 | the in-place loop with the search as written: it runs over the end if and only if RunsOver holds of the chunk and the memory behind it, and else leaves what the one-pass decoder leaves, with the same replies and echo flag |
| TelnetReplies.RepliesOfTokens | c-cpp/onethread/telnet.c:54-98 | the replies of a chunk, in order, and the echo flag after it are those of its tokens: "are you there" is answered; a DO of an option that shares no bit with 1 or 3 gets one WONT of it, any other one WILL if and only if the flag was off, and then it is on; a DONT of 1 gets one WONT if and only if it was on, and then it is off; nothing else is answered but a DO that is cut off, with a WONT of option 0 |
| TelnetStrip.OverrunsWhen | c-cpp/onethread/telnet.c:57-101 | the same in closed form: a command is cut off after other than one byte of text, or there is a 255 among the bytes left behind, as far as the last command has text before it |
| TelnetStrip.SafeAnywhere | c-cpp/onethread/telnet.c:57-101 | a chunk is safe whatever follows it in memory if and only if it ends within a command after a single byte of text, or within none, when the search stays among the bytes left behind and no 255 is there |
| TelnetStrip.SafeWhen | c-cpp/onethread/telnet.c:57-101 | a chunk that ends within no command, without 255 among its last two bytes and in as many bytes behind it, is safe |
| TelnetStrip.SafeWithoutCommands | c-cpp/onethread/telnet.c:57-58 | a chunk without 255 is safe |
| TelnetStrip.OverrunWitness | c-cpp/onethread/telnet.c:57-101 | five letters, a no-operation and a quoted 255, all complete, run over the end |
| TelnetStrip.SurvivorsStripped | c-cpp/onethread/telnet.c:60-97 | what is left of a chunk the program survives is the text without its commands if and only if there is no "are you there" and no command cut off, or one of either |
| TelnetStrip.Session.FilterRead | c-cpp/onethread/telnet.c:51-111 | what is passed up, what is echoed back and when, including when the echo never returns or writes nothing |
| TelnetReader.DecodeStream | c-cpp/onethread/telnet.c:57-101 | after a chunk that ends within no command, the next one is decoded as if the two were one |
| TelnetReader.DecodeLex | c-cpp/onethread/telnet.c:60-97 | the decoder keeps one byte too many for each "are you there" and is cut exactly by a partial command |
| TelnetReader.SpellLex | c-cpp/onethread/telnet.c:60-97 | the tokens the chunk is compared by are all of the chunk |
| TelnetReader.EchoBalance | c-cpp/onethread/telnet.c:69-89 | over any input, WILL replies less echo WONT replies are the change of the echo flag |
| TelnetReader.ReadUndoesDoubling | c-cpp/onethread/telnet.c:65-68 | with 255 doubled, reading the writer's output yields what it would be without doubling, with no replies and no loss |
| TelnetReader.RoundTrip | c-cpp/onethread/telnet.c:169-175 | whatever byte came before, plain text comes back unchanged if and only if the doubled byte is 255 or the text contains neither it nor 255 |
| TelnetReader.RoundTripAsWritten | c-cpp/onethread/telnet.c:169-175 | with the byte the code doubles, if and only if the text contains neither 173 nor 255 |
| TelnetReader.ReadCostsIacs | c-cpp/onethread/telnet.c:58-68 | every 255 that comes out of the reader took two on the way in |
| Loan.AnnuityClears | rust/loan/src/lib.rs:37-41 | paying amount/discount exactly, the balance after all periods is 0 |
| Loan.NewPaymentClears | rust/loan/src/lib.rs:19-30 | the payment a new loan holds is, rounded to cents, the only one that clears it exactly in its periods at the rate given, which is the schedule's rate if and only if it is below 0.2; paying it leaves at most 0.005((1+i)^n - 1)/i either way |
| Loan.EnteredPaymentClears | rust/loan/src/main.rs:59-70 | for the rate as main takes it, if and only if it is below 20 |
| Loan.PaymentWithoutPeriods | rust/loan/src/lib.rs:28-41 | without periods the payment has no limit at a rate not below zero, and is minus infinity below |
| Loan.PaymentWithoutFactor | rust/loan/src/lib.rs:28-41 | it has no limit at a rate of zero, and is zero at -12 |
| Loan.Loan.constructor | rust/loan/src/lib.rs:19-30 | a new loan has that payment, and its amount is cleared by it but for those cents |
| Loan.ScheduleTracksAnnuity | rust/loan/src/lib.rs:47-68 | until the final payment the rounded balance differs from the exact one by at most the accumulated drift |
| Loan.NewLoanTracksAnnuity | rust/loan/src/lib.rs:19-68 | for a new loan paid with the payment it holds, that is at most 0.01((1+i)^k - 1)/i after k payments |
| Loan.OnePayment | rust/loan/src/lib.rs:47-68 | a payment that covers the interest lowers the balance, not below zero, and never raises the interest |
| Loan.AmountsPaid | rust/loan/src/lib.rs:47-68 | the payments add up to interest and principal; all but the last are the loan's payment, and so is that unless it clears the rest, which is then not above it |
| Loan.EndsIff | rust/loan/src/lib.rs:47-68 | the iterator ends if and only if one payment covers the amount or the payment exceeds the first interest, and then within amount/(payment - interest) payments, rounded up |
| Loan.NeverEnds | rust/loan/src/lib.rs:47-68 | otherwise no number of payments is enough |
| Loan.EndsBelowZero | rust/loan/src/lib.rs:47-68 | at a rate below zero any payment above zero ends it, within amount/payment payments |
| Loan.EnoughEnds | rust/loan/src/lib.rs:109-123 | at a rate not below zero any number of payments from amount/(payment - interest) on, rounded up, or one that covers the amount, is enough; without either none is |
| Loan.StaysCovered | rust/loan/src/lib.rs:47-68 | once a payment covers the amount or the interest, that stays so: the balance falls strictly, not below zero, and interest never rises |
| Loan.Loan.Next | rust/loan/src/lib.rs:47-68 | the payment handed out carries the new balance, and nothing happens at zero; a payment that is no number or infinite is everything due, and minus infinity leaves the scale |
| Loan.Loan.Totals | rust/loan/src/lib.rs:109-123 | for any rate and payment the loop ends within a number of turns if and only if the schedule does, the sums are those of the schedule, and the balance is the loan less its principals; ended at a rate not below zero, principals sum to the loan, the last balance is exactly 0, balances fall strictly and interest never rises |
| Loan.Repay | rust/loan/src/main.rs:59-82 | the same for what main makes of its arguments; at a rate not below zero it ends if and only if one payment covers the amount or exceeds the first interest, given turns enough |
| IrcMessage.ParseOfPrinted | c-cpp/circ/circ.c:58-94 | parsing the printed form of any well-formed message gives back prefix parts, command and all parameters |
| IrcMessage.ParsedIsWellFormed | c-cpp/circ/circ.c:58-94 | every line parses to a well-formed message, which prints no longer than the line |
| IrcMessage.PrintedParsesTheSame | c-cpp/circ/circ.c:58-94 | for any line, parsing what the parsed message prints changes nothing |
| IrcMessage.ArgsOfPrinted | c-cpp/circ/circ.c:84-92 | parameters with a printed colon where one is needed read back the same |
| Circ.CircMessage.ParseLine | c-cpp/circ/circ.c:58-94 | for any line, what the pointers into the cut-up buffer lead to is the parse of its first 512 characters; every pointer is NULL or leads to a string that ends in the buffer, and there are at most 18 parameters |
| Circ.CircMessage.ReadArgs | c-cpp/circ/circ.c:84-92 | the loop and the trailing parameter leave each parameter a string of its own, with the text before untouched |
| Circ.CircMessage.ParsePrefix | c-cpp/circ/circ.c:73-75 | the three strtok_r calls cut nick, ident and host out of the mask only |
| IrcMessage.ParseSpelled | c-cpp/circ/circ.c:58-94 | a message as RFC 1459 spells it, with nick, user, host, command, one parameter and a trailing one, is parsed into these |
| Circ.SameCommandIff | c-cpp/circ/circ.c:107 | commands are the same if and only if they are letter by letter, whatever their case |
| Circ.CircMessage.Process | c-cpp/circ/circ.c:96-111 | the callback chosen is the first whose name is the parsed command in any case, and none if there is no such one or no command |
| CmdTree.Commands.Add | other/larne-tree_example.cc:15-29 | the tree becomes the updated one, and the caller's token vector is used up but for its last token |
| CmdTree.AddedEntry | other/larne-tree_example.cc:15-29 | seen as a map from full paths, adding updates one path, and makes empty entries for missing prefixes, and nothing else |
| CmdTree.Find | other/larne-tree_example.cc:38-98 | the search finds what the rules say: exact key, !R, !S, then abbreviation by the two bounds; argret grows by the collected tokens |
| CmdTree.ChosenIsBest | other/larne-tree_example.cc:45-88 | of the keys a token may lead to, itself, the wildcards and what it abbreviates, the one chosen comes first in the order exact, !R, !S, abbreviated, and is the least of several abbreviated ones; none is chosen if and only if there is none |
| CmdTree.FoundAlongKeys | other/larne-tree_example.cc:38-98 | a search finds the node at the end of its keys if these account for all tokens and it has a callback or incomplete commands will do; and it goes on while any key meets the next token |
| CmdTree.KeysAreBest | other/larne-tree_example.cc:38-98 | each of those keys is the best for its token where the keys before it have led |
| CmdTree.LowerBoundIsLeastExtension | other/larne-tree_example.cc:65-75 | the lower bound extends the token if and only if some key does, and it is then the least that does |
| CmdTree.ExactPath | other/larne-tree_example.cc:41-97 | a full path leads to its own node, whatever wildcards and abbreviations there are |
| CmdTree.AddThenFind | other/larne-tree_example.cc:15-98 | an added command is found by its path, and every other command with a callback still by its own |
| CmdTree.ArgsAreWild | other/larne-tree_example.cc:45-63 | argret collects the tokens that met wildcards, in order, the rest of the line for !R |
| Chat.Peer.PollOnce | rust/chat/src/main.rs:100-134 | one poll: at most ten lines in, one write out, errors of either side; on NotReady the task has notified itself if and only if it read ten lines or output is left |
| Chat.DoneIff | rust/chat/src/main.rs:103-127 | a poll ends the task if and only if its stream breaks within ten lines, in which case nothing is sent, or there is something to send and the writer fails or takes nothing |
| Chat.RunConserves | rust/chat/src/main.rs:100-134 | over any run, failed polls included, bytes sent ++ buffer are the received lines in order, each followed by CR LF |
| Chat.SentIsPrefix | rust/chat/src/main.rs:100-134 | what the client got is always a prefix of the echo it is owed |
| Chat.OwingIsScheduled | rust/chat/src/main.rs:100-134 | at any time in any run of arrivals and polls, a task that has not failed and owes output, or has lines to read, is scheduled; one that is not has sent the whole echo |
| Chat.SleepsIffEnded | rust/chat/src/main.rs:103-133 | at any time in any run, a task that has not failed is never polled again, whatever happens, if and only if it is not scheduled and its input has ended |
| Chat.WorkedOff | rust/chat/src/main.rs:100-134 | with a writer that always takes something, polling a scheduled task reads all lines there are and sends their whole echo within a bounded number of polls |
| Chat.QuietPollsDrain | rust/chat/src/main.rs:119-131 | while the writer makes progress and no lines come, as many polls as bytes are buffered deliver everything |

## Left out

- System calls are oracles: socket, poll, read, write, accept, getsockopt; descriptor numbers are arbitrary.
- `sockbuf_shutdown` and `sockbuf_list`: a run of the model ends before the first, and the second only reads flags.
- Memory: failing allocation, and pointers into tables that a callback moves by reallocating them, are not modelled.
- SockRound.EventsServed: events that a callback's own poll reports are covered by that call's trace, and by TurnGenuineIff and ShowsAgain in the outer one.
- Sockbuf.Session: a run goes on only with valid tables, so no on_delete callback of a deletion made outside update_all calls update_all in it, and no socket is set with DELETED or AVAIL among the flags; what such calls do is in UpdateAll with SweepKeepsIff, and in SetSockFlags.
- Sockbuf.Sockbufs.GotReadable: the length of one read is not bounded by 4096.
- Sockbuf.Sockbufs.OnWrite: what a filter does with the data is arbitrary; module Filters treats filters that forward at their own level.
- Peer and local addresses of a slot, `raw_bytes_left`, and the filter dispatch of `sockbuf_on_newclient` when the tested callback is set but the called one is not.
- StatsRing.Stats.UpdateStats: stops before the divisions by `nsecs`, which the program never initialises; counters do not overflow.
- Cidr.Split: shifts are those of 64-bit unsigned long arithmetic, as on LP64; on other targets `1<<31` differs.
- Netmask.DescribeInvertsBlock: for mask lengths outside 1 to 31 the shifts or the subtractions overflow; that is a panic in a debug build, which is what None stands for.
- TelnetReader.DecodeLex: subnegotiations (RFC 855) are not told apart from other two-byte commands, neither by the program nor by the tokens.
- TelnetStrip.Session.Strip: with an overrun nothing is said about memory or about replies sent before it.
- Telnet.FilterWrite: the byte in front of the data, read for a leading NUL, is a parameter.
- EggBuffer.Format: a format is taken as the text it yields.
- Loan.EndsIff: rates below zero are left to EndsBelowZero, which needs a payment above zero.
- Loan.Loan.Next: what is printed once a payment is minus infinity, infinities and sums that are no numbers, is not modelled, only that it never ends.
- Loan.ScheduleTracksAnnuity: rounding to cents is modelled; the binary rounding of f64 and the wrap of periods to a signed integer are not.
- Circ.CircMessage.ParseLine: the hostmask field is modelled only as present or absent, since strtok_r cuts it down to the nick.
- `circ_fetch`, sessions and connections of circ; only the choice of a callback is modelled.
- CmdTree.Find: the tree is a value, where the program has maps of nodes; the token vector it erases from is not returned, and an empty one is excluded.
- Splitting a command line into tokens (`str::tokenise`) is not part of this model.
- Chat.Peer.PollOnce: registration, which takes the first line as the nick, comes before and is not modelled; a writer never takes more bytes than it is given.
- Console output, and the scripts, key-value stores and services of the repository, are not modelled.
