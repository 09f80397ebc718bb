# Verified models of the saynaa-os core

This project models the parts of the system that carry its state and its arithmetic, and proves
what they promise over all inputs and all runs. Code that changes things in place is modelled in
place: the scheduler as a ring of linked nodes, message queues and terminals as byte rings, the heap
as headers in word memory, the compositor as two pixel arrays, the path splitter as offsets into a
buffer it writes zeros into. Each such class or loop is proved to follow a specification on values,
and the theorems are about that specification.

| part | specification | implementation |
|---|---|---|
| window server | `WmRender`, `WmTable`, `WmServerSpec`, `WmServerRuns`, `WmEvents` | `WmScreen`, `WmServer` |
| scheduler | `SchedSpec` | `SchedRobin`, `ProcDriver`, `ProcRuns` |
| /dev/wm queues | `WmQueueSpec`, `WmDeviceSpec`, `WmDeviceRuns` | `Ring`, `WmEndpoint`, `WmDevice` |
| heaps | `HeapSpec` | `Heap`, `KernelHeap`, `UserHeap` |
| physical frames, shared memory | `PmmSpec`, `PmmLedger` | `Pmm`, `PmmRuns`, `Shm` |
| printf and scanf | `Numerals`, `PrintSpec`, `PrintFormat`, `PrintMeaning`, `Scan`, `ScanFormat`, `PrintScan` | `PrintEngine`, methods of `Numerals`, `Scan` and `ScanFormat` |
| ext2 | `Ext2Spec`, `Ext2Dir` | `Ext2`, methods of `Ext2Dir` |
| pseudo terminal | `PtySpec` | `Ring`, `Pty` |
| division, lines, paths | `Div64`, `LineDraw`, `PathSpec` | methods of `Div64` and `LineDraw`, `Path` |
| shared | `Arithmetic`, `Bytes`, `Sequences`, `Wrappers` | |

The main results:

- After every message and input event the frame buffer holds the arrow, the client's word of the topmost
  window or the backdrop in every pixel no client has changed since it last reported damage there,
  although drags, cursor moves and damage repaint only a rectangle (`WmServer.Server.Serve`); focus, drag
  and keyboard are safe over every run (`WmServerRuns.EveryRunSafe`), and `WmEvents` says who gets which
  event.
- Bounded waiting of the round-robin scheduler (`SchedSpec.BoundedWaiting`), also over every run of the
  real calls (`ProcRuns.Serve`), and the refinement of the pointer ring to a sequence
  (`SchedRobin.RoundRobin.Reschedule`).
- /dev/wm rings always hold whole messages and lose only the oldest; every process reads what was
  written to it, byte by byte, in order and at most once (`WmDeviceRuns.EachProcessReadsInOrder`), and
  clients hear only the server.
- Heap blocks never move or overlap over any run; no frame is handed out twice in any run of the frame
  allocator (`PmmRuns.Serve`); shared memory objects own disjoint frames.
- Printing and scanning integers is the identity, for single conversions, for whole lists and with
  one format string for both directions, except for zero with precision zero; `vsnprintf` leaves the
  longest prefix that fits. `PrintMeaning` says what a format means: every specification is read as it is
  written, and every conversion prints what it should.
- Chunked ext2 reads return the bytes stored in the blocks the inode points to (`Ext2.ReadFile`);
  directory enumeration and lookup agree; the terminal hands over exactly the edited lines.

Where the code does not do what one would expect, the model follows the code and the exact condition
is proved: raising a window (`WmTable.RaiseTopmostIff`), exit followed by rescheduling
(`SchedSpec.ExitThenNext`), reads near the 4 GiB limit (`Ext2Spec.ReadStopsAtEndIff`), the 32-bit tests for the
end of the kernel heap (`KernelHeap.EndTestIff`) and for the break of a process (`UserHeap.BreakIff`), long
sleeps (`ProcDriver.SleepTicksIff`), normalising in place a path that grows (`PathSpec.GrowsIff`), normalising a
long relative path twice (`PathSpec.IdempotentIff`), paths deeper than 64 levels
(`PathSpec.NormalizeResolvesIff`), and a precision together with a sign or prefix
(`PrintSpec.PrecisionIff`, `PrintMeaning.FieldFilledIff`).
Lemmas beside them give failing inputs.

## Model

| member | source | states |
|---|---|---|
| `WmRender.LayersIsTopmost` | userspace/src/wm.c:330-366 | A pixel without the cursor shows the client word in the row and column, counted from the corner of the window, of the last slot whose window with a buffer lies around it |
| `WmRender.LayersIsBackdrop` | userspace/src/wm.c:330-366 | A pixel with no such window around it shows the backdrop |
| `WmRender.RenderIff` | userspace/src/wm.c:69-440 | The picture gives every pixel the colour it should have and no other: white in the twelve rows of the arrow, the word of the topmost window, or the backdrop |
| `WmRender.UnionIsSmallest` | userspace/src/wm.c:119-134 | `rect_union` is contained in every rectangle that contains both arguments |
| `WmRender.Union` | userspace/src/wm.c:119-134 | `rect_union` contains both arguments |
| `WmRender.CursorMoveIsCovered` | userspace/src/wm.c:814-822 | Moving the cursor changes no pixel of the picture outside the rectangle the server repaints for it |
| `WmRender.DragIsCovered` | userspace/src/wm.c:755-789 | Dragging a window changes no pixel outside the union the server repaints, whichever of the two cursors is on the screen |
| `WmRender.DamageIsCovered` | userspace/src/wm.c:685-695 | A client that redraws inside a half-open rectangle of its window changes no pixel outside it |
| `WmScreen.Screen.DrawCursorClipped` | userspace/src/wm.c:73-117 | Exactly the pixels of the arrow inside screen and clip rectangle turn white |
| `WmScreen.Screen.Clip` | userspace/src/wm.c:294-312 | The clipped rectangle holds exactly the pixels of the rectangle that are on the screen; empty means there are none |
| `WmScreen.Screen.Blit` | userspace/src/wm.c:294-328 | Inside the rectangle the frame buffer becomes the back buffer, outside nothing changes |
| `WmScreen.Screen.PaintWindow` | userspace/src/wm.c:340-360 | Inside the rectangle every pixel of the window becomes the client word at its row and column, everything else stays |
| `WmScreen.Screen.CompositeFull` | userspace/src/wm.c:330-366 | Back buffer and frame buffer both equal the full picture, and the word of the frame buffer at y * pitch + x is the colour that pixel should have |
| `WmScreen.Screen.CompositeRect` | userspace/src/wm.c:368-440 | Inside the rectangle both buffers equal the full picture and the words of the frame buffer are the colours those pixels should have; outside nothing changes; for every rectangle on or off the screen |
| `WmScreen.Screen.SyncedIsDisplayed` | userspace/src/wm.c:330-440 | When a buffer equals the picture but for stale pixels, its words at all other pixels are the colours these should have |
| `WmScreen.Screen.Refresh` | userspace/src/wm.c:368-440 | If a rectangle covers all pixels that differ between the old and the new picture, repainting it makes both buffers equal to the new picture |
| `WmTable.ById` | userspace/src/wm.c:136-143 | The slot found holds the id and no earlier slot does |
| `WmTable.AtIsLive` | userspace/src/wm.c:145-161 | Whatever is hit is the topmost window that takes input at the point |
| `WmTable.AtIsTopmost` | userspace/src/wm.c:145-161 | The window hit is the one in the last slot whose window takes input and lies around the point |
| `WmTable.AtIsNothing` | userspace/src/wm.c:145-161 | Where no window takes input nothing is hit |
| `WmTable.TopmostIs` | userspace/src/wm.c:182-195 | No slot above the one found takes focus, and none at all when nothing is found |
| `WmTable.StopIsFirst` | userspace/src/wm.c:210-228 | The raise stops at the first empty or foreground slot above the window |
| `WmTable.RaiseConserves` | userspace/src/wm.c:197-236 | Raising loses and duplicates no window and moves no foreground window |
| `WmTable.RaiseMoves` | userspace/src/wm.c:197-236 | The raised window is found again with its contents, in the slot `RaisedTo`, never lower than before |
| `WmTable.RaiseTopmostIff` | userspace/src/wm.c:197-236 | Raising puts a window above all ordinary windows if and only if nothing ordinary lies above the first hole or foreground window over it |
| `WmTable.RaiseMayStayBelow` | userspace/src/wm.c:216-235 | A table of any size, such as that of 32 slots, with a hole where the raised window stays below another one |
| `WmTable.PlaceConserves` | userspace/src/wm.c:600-652 | Creating fills one empty slot with the new window and otherwise only rearranges the table |
| `WmTable.PlaceIs` | userspace/src/wm.c:569-640 | A new ordinary window goes into the first empty slot, one for the foreground into the last |
| `WmServerRuns.HolderIs` | userspace/src/wm.c:449-470 | In a trace with a focus holder the gained and lost events of every window alternate, and the holder is the one window with an unmatched gained event |
| `WmServerRuns.UpdateFocusInv` | userspace/src/wm.c:449-470 | Moving the focus to no window or to a focusable one keeps the invariant and sets the focus there |
| `WmServerRuns.CreateInv` | userspace/src/wm.c:569-659 | A create message keeps the invariant and uses at most one window id |
| `WmServerRuns.CloseInv` | userspace/src/wm.c:660-684 | A close message keeps the invariant |
| `WmServerRuns.MouseInv` | userspace/src/wm.c:705-823 | A mouse report keeps the invariant |
| `WmServerRuns.RecoverInv` | userspace/src/wm.c:826-853 | The window chosen for a key takes focus and has it, and one is chosen whenever a focusable window exists |
| `WmServerRuns.KeyboardDelivers` | userspace/src/wm.c:826-864 | A key event goes to the focused window, which is focusable; it is sent if and only if some window is focusable |
| `WmServerRuns.StepInv` | userspace/src/wm.c:554-867 | Every message and input event keeps the invariant |
| `WmServerRuns.BootInv` | userspace/src/wm.c:538-549 | The state before the first message satisfies the invariant |
| `WmServerRuns.BootIs` | userspace/src/wm.c:538-549 | At the start there are no windows, and the cursor is in the middle of the screen |
| `WmServerRuns.EveryRunSafe` | userspace/src/wm.c:554-867 | Over every run with fewer creates than window ids: ids unique, focus on no window or on a live focusable one, gained and lost events alternating with the focus holder unmatched, and dragging only with the button down and a live window that is not a foreground one |
| `WmServerRuns.CreatesIs` | userspace/src/wm.c:554-569 | Every create message of a run counts once, and nothing else does |
| `WmServerRuns.NothingStale` | userspace/src/wm.c:554-867 | As long as no client draws, no pixel is ever out of date |
| `WmServerRuns.RedrawThenDamage` | userspace/src/wm.c:685-695 | A client that draws in some rows and columns of its buffer and reports the rectangle they form, without the last ones, leaves nothing out of date |
| `WmEvents.FocusMoves` | userspace/src/wm.c:449-470 | The window that had the focus hears that it lost it, and then the new one that it gained it, each at its owner |
| `WmEvents.PressGoesToTopmost` | userspace/src/wm.c:721-750 | The topmost window under the mouse hears about the press with coordinates from its corner, is raised, gets the focus if it takes it, and starts to follow the mouse if it was grabbed in its upper 30 rows and is not in the foreground |
| `WmEvents.PressOnNothing` | userspace/src/wm.c:721-750 | A press where no window takes input changes nothing |
| `WmEvents.ReleaseGoesToTopmost` | userspace/src/wm.c:791-811 | The topmost window under the mouse hears about the release, and the drag is over |
| `WmEvents.ReleaseOnNothing` | userspace/src/wm.c:791-811 | A release where no window takes input only ends the drag |
| `WmEvents.HoverOverWindow` | userspace/src/wm.c:472-515 | The window left hears an exit, the one entered an enter, and the one under the mouse a move, in this order and with coordinates from its corner |
| `WmEvents.HoverOverNothing` | userspace/src/wm.c:472-515 | Off all windows only the window left hears an exit |
| `WmEvents.DragFollows` | userspace/src/wm.c:755-789 | The grabbed point of a dragged window is under the mouse as long as that keeps the window on the screen; otherwise it stands at the edge it would cross; nothing else changes |
| `WmEvents.PressReport` | userspace/src/wm.c:705-823 | In a report with the button going down the press comes first; dragging and hovering only move the window and append events |
| `WmEvents.DragReport` | userspace/src/wm.c:705-823 | While the button stays down every report that moves the mouse moves the dragged window after it, and the grabbed point stays the same |
| `WmEvents.KeyFinds` | userspace/src/wm.c:830-853 | A key goes to the window with the focus; without one to the topmost window under the mouse if it takes the focus, and otherwise to the topmost window that does |
| `WmEvents.IdsCountUp` | userspace/src/wm.c:601-604 | Window ids count up in 32 bits and skip 0 |
| `WmEvents.WindowsOpenOnADiagonal` | userspace/src/wm.c:601-631 | A new window takes its client, size and buffer from the message; ordinary ones open on a diagonal and never outside 10 to 209 and 40 to 179, the others in the corner |
| `WmEvents.CreateAnswers` | userspace/src/wm.c:569-659 | A create message that finds a slot and a buffer is answered with id and corner of the new window, which is then in the table and has the focus if it takes it; any other is answered with zeros and changes nothing |
| `WmEvents.CloseRemoves` | userspace/src/wm.c:660-684 | A window closed by its owner is gone, without focus, hover or drag, and all others stay; from anybody else the message changes nothing |
| `WmServer.Server.constructor` | userspace/src/wm.c:517-549 | The server starts in the boot state with both buffers showing the picture |
| `WmServer.Server.WinById` | userspace/src/wm.c:136-143 | The loop finds the slot of the specification |
| `WmServer.Server.WinAt` | userspace/src/wm.c:145-161 | The loop finds the topmost window that takes input at the point |
| `WmServer.Server.TopmostFocusable` | userspace/src/wm.c:182-195 | The loop finds the highest slot that takes focus |
| `WmServer.Server.RaiseWindow` | userspace/src/wm.c:197-236 | The table afterwards is the raised table |
| `WmServer.Server.Send` | userspace/src/wm.c:442-447 | The event is appended to the trace unless the receiver is pid 0 |
| `WmServer.Server.UpdateFocus` | userspace/src/wm.c:449-470 | Focus and events as specified |
| `WmServer.Server.CreateWindow` | userspace/src/wm.c:569-659 | New state as specified, and both buffers again equal the full picture |
| `WmServer.Server.CloseWindow` | userspace/src/wm.c:660-684 | New state as specified, and both buffers again equal the full picture |
| `WmServer.Server.HandleDamage` | userspace/src/wm.c:685-695 | Nothing in the half-open rectangle is out of date afterwards, and outside it nothing changes; an unknown window changes nothing |
| `WmServer.Server.RedrawBuffer` | userspace/src/wm.c:294-328 | After a client drew into its buffer at most the pixels it changed are out of date |
| `WmServer.Server.PressUnder` | userspace/src/wm.c:721-750 | State after the button went down as specified |
| `WmServer.Server.DragWindow` | userspace/src/wm.c:755-789 | State after the drag as specified; when it repaints, the screen shows the new picture, otherwise the picture has not changed |
| `WmServer.Server.ReleaseUnder` | userspace/src/wm.c:791-811 | State after the button went up as specified |
| `WmServer.Server.HandleHover` | userspace/src/wm.c:472-515 | Exit, enter and move events as specified |
| `WmServer.Server.MoveCursor` | userspace/src/wm.c:814-822 | Both buffers show the picture with the cursor in its new place |
| `WmServer.Server.MouseInput` | userspace/src/wm.c:705-823 | New state as specified, and both buffers again equal the full picture |
| `WmServer.Server.RecoverFocus` | userspace/src/wm.c:830-853 | Slot and state as specified |
| `WmServer.Server.KeyInput` | userspace/src/wm.c:826-864 | New state as specified, and the screen still shows the picture |
| `WmServer.Server.Serve` | userspace/src/wm.c:554-867 | Over every sequence of messages (damage included), events and client redraws the server follows the specification, and after every step the frame buffer holds the arrow, the client word of the topmost window or the backdrop in every pixel that no client changed since the last damage message about it |
| `SchedSpec.NextMoves` | kernel/src/sys/sched_robin.c:152-202 | Every process survives a call at its new place, and loses one tick exactly if it sleeps and no awake process precedes it |
| `SchedSpec.NextConservesProcesses` | kernel/src/sys/sched_robin.c:152-202 | A call permutes the processes |
| `SchedSpec.NextOrigin` | kernel/src/sys/sched_robin.c:152-202 | Every process on the ring after a call was there before |
| `SchedSpec.NextSelectsFirstAwake` | kernel/src/sys/sched_robin.c:152-202 | The selected process is the first awake one after the current one, the current one coming last |
| `SchedSpec.ExitThenNext` | kernel/src/sys/sched_robin.c:152-240 | Leaving and rescheduling selects the process that rescheduling alone would have selected if and only if the leaver was not the only awake process |
| `SchedSpec.ExitPicksAnother` | kernel/src/sys/sched_robin.c:152-240 | Three processes, the other two asleep, where the exit of the only awake one selects another sleeper than rescheduling alone would have |
| `SchedSpec.NextProgress` | kernel/src/sys/sched_robin.c:152-202 | A waiting process is selected, or ring index plus sleep ticks gets smaller |
| `SchedSpec.StepProgress` | kernel/src/sys/proc.c:322-425 | So does every timer tick, sleep and exit of the running process |
| `SchedSpec.BoundedWaiting` | kernel/src/sys/proc.c:322-425 | A process at ring index i with t ticks to sleep is selected within i + t + (arrivals) reschedulings, whatever the running processes do |
| `SchedSpec.ArrivalsIs` | kernel/src/sys/sched_robin.c:102-131 | The number of arrivals is that of the events in which a process is added |
| `SchedRobin.RoundRobin.Prune` | kernel/src/sys/sched_robin.c:26-87 | The ring becomes the order-preserving selection of the nodes with a valid process |
| `SchedRobin.RoundRobin.GetCurrent` | kernel/src/sys/sched_robin.c:89-100 | Prunes and returns the process of the head, null on an empty ring |
| `SchedRobin.RoundRobin.Add` | kernel/src/sys/sched_robin.c:102-131 | A fit process goes right behind the head, an unfit one changes nothing |
| `SchedRobin.RoundRobin.Exists` | kernel/src/sys/sched_robin.c:133-150 | True exactly if some node has a process with the pid |
| `SchedRobin.RoundRobin.Scan` | kernel/src/sys/sched_robin.c:160-185 | The walk charges one tick to each sleeper it passes and stops in front of the first awake process or after a full round |
| `SchedRobin.RoundRobin.MoveBehindHead` | kernel/src/sys/sched_robin.c:186-198 | Relinking moves one node right behind the head and keeps the order of the others |
| `SchedRobin.RoundRobin.SelectNext` | kernel/src/sys/sched_robin.c:152-202 | The pointer ring follows the sequence specification of a call |
| `SchedRobin.RoundRobin.Reschedule` | kernel/src/sys/sched_robin.c:152-202 | `sched_next`: prune, then the sequence specification; the head is returned |
| `SchedRobin.RoundRobin.Exit` | kernel/src/sys/sched_robin.c:204-240 | The node of the process goes and its predecessor becomes current; a ring of one is emptied; an absent process changes nothing |
| `ProcDriver.SleepTicks` | kernel/src/sys/proc.c:408-425 | A sleep takes no tick only when it is for zero milliseconds |
| `ProcDriver.SleepTicksIff` | kernel/src/sys/proc.c:408-425 | The ticks are the milliseconds rounded up to timer periods if and only if the sleep is shorter than 42949663 ms, where the 32-bit sum wraps around |
| `ProcDriver.Scheduler.Schedule` | kernel/src/sys/proc.c:322-336 | The ring takes one scheduling step and the head runs |
| `ProcDriver.Scheduler.TimerTick` | kernel/src/sys/proc.c:340-348 | A timer tick is a scheduling step |
| `ProcDriver.Scheduler.Sleep` | kernel/src/sys/proc.c:408-425 | The running process gets its ticks and is rescheduled; nothing happens when no process runs |
| `ProcDriver.Scheduler.Exit` | kernel/src/sys/proc.c:382-398 | The running process leaves the ring and the next one is scheduled |
| `ProcDriver.Scheduler.Spawn` | kernel/src/sys/proc.c:202-278 | A new process arrives right behind the current one |
| `ProcDriver.Scheduler.EnterUsermode` | kernel/src/sys/proc.c:350-377 | The head of the ring becomes the running process, if there is one |
| `ProcRuns.Perform` | kernel/src/sys/proc.c:202-425 | Each call, of the timer, of the running process or creating a process, is one event on the ring, and the head runs unless the last process has left |
| `ProcRuns.BoundedWaitingOfCalls` | kernel/src/sys/proc.c:322-425 | When the process that runs follows the events, a process at ring index i with t ticks to sleep is among those that ran once i + t + (arrivals) reschedulings have passed |
| `ProcRuns.Serve` | kernel/src/sys/proc.c:202-425 | Over every sequence of calls, up to the exit of the last process, the ring follows the events of the calls, and every process waiting at the start has run after i + t + (arrivals) reschedulings |
| `Bytes.U32RoundTrip` | kernel/src/fs/dev/dev_wm.c:120-132 | Four little-endian bytes give back the number they were made of |
| `Bytes.LittleEndian` | kernel/src/fs/dev/dev_wm.c:120-132 | The byte at the lowest offset counts ones, the next one 256s, and so on, in both directions |
| `Bytes.U32AtIs` | kernel/src/fs/ext2.c:98-102 | Four bytes read as the little-endian number they stand for |
| `Bytes.U16AtIs` | kernel/src/fs/ext2.c:286-303 | So do two bytes |
| `WmQueueSpec.HeaderFields` | kernel/src/fs/dev/dev_wm.c:120-132 | A frame announces its sender, type and length whatever follows it |
| `WmQueueSpec.ParseFlat` | kernel/src/fs/dev/dev_wm.c:99-146 | The bytes of a ring determine its messages: cutting the concatenated frames gives the messages back |
| `WmQueueSpec.EvictKeepsLongestSuffix` | kernel/src/fs/dev/dev_wm.c:104-130 | Making room keeps exactly the longest suffix of whole messages that leaves enough space |
| `WmDeviceSpec.WriteKeepsInv` | kernel/src/fs/dev/dev_wm.c:186-234 | A write keeps the device invariant: whole messages that fit their rings, and only messages from the server in the queues of others |
| `WmDeviceSpec.ReadKeepsInv` | kernel/src/fs/dev/dev_wm.c:148-184 | A read keeps it |
| `WmDeviceSpec.EveryRunKeepsInv` | kernel/src/fs/dev/dev_wm.c:148-234 | Every run of reads and writes goes on and keeps it |
| `WmDeviceSpec.BootInv` | kernel/src/fs/dev/dev_wm.c:236-247 | It holds after initialisation |
| `WmDeviceSpec.LetterCarries` | kernel/src/fs/dev/dev_wm.c:186-229 | A write of addressee, type, length and payload is accepted for its shape if and only if the payload has at most 256 bytes; it carries that type and payload under the pid of its writer, to that addressee or for 0 to the server |
| `WmDeviceSpec.ShapedIsLetter` | kernel/src/fs/dev/dev_wm.c:186-229 | Whatever is accepted for its shape is such a write, for exactly one reading of its bytes |
| `WmDeviceSpec.ClientsHearOnlyTheServer` | kernel/src/fs/dev/dev_wm.c:148-234 | What a process other than the server reads was sent by the server |
| `WmDeviceSpec.WriteSucceedsIff` | kernel/src/fs/dev/dev_wm.c:186-234 | A write of addressee, type, length and payload is taken if and only if the payload has at most 256 bytes, the writer is the server or addresses it, and the addressee has an endpoint or one is free; writer, type and payload are then the newest message of the addressee; otherwise -1 |
| `WmDeviceSpec.ServerAlwaysReachable` | kernel/src/fs/dev/dev_wm.c:186-234 | A write to the server is never refused |
| `WmDeviceRuns.WritePending` | kernel/src/fs/dev/dev_wm.c:186-234 | A write adds its message to the queue of the addressee, making room from the front, and touches no other queue |
| `WmDeviceRuns.SentByIff` | kernel/src/fs/dev/dev_wm.c:186-234 | What a call sends to a process is a message if and only if the call is a successful write of that type and payload by that sender with that process as addressee |
| `WmDeviceRuns.ReadPending` | kernel/src/fs/dev/dev_wm.c:148-184 | A read takes the oldest message of its own process whole or nothing, and touches no other queue |
| `WmDeviceRuns.ReadReturns` | kernel/src/fs/dev/dev_wm.c:148-184 | A read returns -1 without a process or room for a header, 0 when nothing is waiting, -1 when the oldest message does not fit, and otherwise sender, type, length and payload of that message and how many bytes these are |
| `WmDeviceRuns.EachProcessReadsInOrder` | kernel/src/fs/dev/dev_wm.c:148-234 | Over every run of the device and for every process: the list of all messages that successful writes carry to it, in order; the bytes its reads return are sender, type, length and payload of an in-order selection of them without repetition, and what is waiting is the end of the list |
| `WmDeviceRuns.WrittenIsRead` | kernel/src/fs/dev/dev_wm.c:148-234 | What is written to a process with nothing waiting is what it reads next, byte by byte, with the pid of the writer in front |
| `Ring.UnreadPut` | kernel/src/fs/dev/dev_wm.c:60-70 | Bytes written at the write position become the newest unread bytes |
| `Ring.UnreadDrop` | kernel/src/fs/dev/dev_wm.c:72-82 | Moving the read position drops the oldest bytes |
| `WmEndpoint.Endpoint.Write` | kernel/src/fs/dev/dev_wm.c:60-70 | The bytes are appended to the unread bytes, across the wrap-around |
| `WmEndpoint.Endpoint.Read` | kernel/src/fs/dev/dev_wm.c:72-82 | Returns and removes the first n unread bytes |
| `WmEndpoint.Endpoint.Peek` | kernel/src/fs/dev/dev_wm.c:84-97 | Returns the first n unread bytes if there are so many, and changes nothing |
| `WmEndpoint.Endpoint.DropOldest` | kernel/src/fs/dev/dev_wm.c:106-128 | Exactly the oldest message goes; the corrupt-frame reset cannot happen |
| `WmEndpoint.Endpoint.MakeRoom` | kernel/src/fs/dev/dev_wm.c:104-130 | The oldest messages go until there is room, and no more |
| `WmEndpoint.Endpoint.Enqueue` | kernel/src/fs/dev/dev_wm.c:99-146 | The longest fitting suffix of the old messages and the new one are left; the no-space answer cannot happen |
| `WmEndpoint.Endpoint.Dequeue` | kernel/src/fs/dev/dev_wm.c:148-184 | The oldest message is handed over whole and removed, or nothing changes |
| `WmDevice.Device.constructor` | kernel/src/fs/dev/dev_wm.c:236-247 | All endpoints start free and empty |
| `WmDevice.Device.FindEp` | kernel/src/fs/dev/dev_wm.c:22-29 | The first slot with the pid |
| `WmDevice.Device.EnsureEp` | kernel/src/fs/dev/dev_wm.c:31-46 | Finds the slot of a process or gives it the first free one |
| `WmDevice.Device.EnqueueMsg` | kernel/src/fs/dev/dev_wm.c:99-146 | Refuses long payloads without any change; otherwise posts to the addressee |
| `WmDevice.Device.Read` | kernel/src/fs/dev/dev_wm.c:148-184 | The rings follow the message-queue specification of a read |
| `WmDevice.Device.Write` | kernel/src/fs/dev/dev_wm.c:186-234 | The rings follow the message-queue specification of a write |
| `HeapSpec.AlignTo` | libraries/libc/src/stdlib/malloc.c:21-29 | The smallest multiple of the alignment that is not below the number |
| `HeapSpec.FindFrom` | libraries/libc/src/stdlib/malloc.c:54-68 | The first free block that is large and aligned enough |
| `HeapSpec.FillerBridges` | kernel/src/mem/malloc.c:66-82 | A filler reaches exactly from the old top block to the new one |
| `HeapSpec.AllocWellFormed` | kernel/src/mem/malloc.c:175-216 | Allocation keeps blocks ordered, disjoint and aligned |
| `HeapSpec.PayloadsApart` | kernel/src/mem/malloc.c:43-115 | The payload of a block meets neither the header nor the payload of another |
| `HeapSpec.AllocReturns` | kernel/src/mem/malloc.c:175-216 | The caller gets aligned memory of at least the requested size that was free or new, and all other blocks stay in place |
| `HeapSpec.ReleaseFrees` | kernel/src/mem/malloc.c:154-162 | A released block is free and off the account, nothing else changes, and the next request it suits is met by it or a block in front of it, without growing the heap |
| `HeapSpec.RoundingIff` | libraries/libc/src/stdlib/malloc.c:95-97 | Rounding in 32 bits gives at least the requested size if and only if it is at most 0xFFFFFFF8; larger ones become 0 |
| `HeapSpec.AllocBelowIff` | kernel/src/mem/malloc.c:175-216 | After an allocation all blocks end below a limit if and only if a block was reused or the new one ends below it |
| `HeapSpec.NewEnd32Iff` | libraries/libc/src/stdlib/malloc.c:116-117 | The end of a new block, computed step by step in 32 bits, is the true one if and only if the true one fits in 32 bits |
| `HeapSpec.WrappedTestIff` | libraries/libc/src/stdlib/malloc.c:116-124 | When the computed end passes a test against a limit, the block is below the limit if and only if its end fits in 32 bits |
| `HeapSpec.StepKeeps` | kernel/src/mem/malloc.c:154-216 | Each allocation and release keeps the list well formed and every block where it is |
| `HeapSpec.BlocksNeverMove` | kernel/src/mem/malloc.c:154-216 | Over every run blocks never move, shrink or grow, and two blocks never share a byte |
| `HeapSpec.UsedBytesUpdate` | kernel/src/mem/malloc.c:154-162 | Setting or clearing a used flag changes the used total by the payload size |
| `HeapSpec.UsedBytesExtend` | kernel/src/mem/malloc.c:60-85 | A new block adds its size to the used total, its filler nothing |
| `Heap.WritableIsNoPayload` | kernel/src/mem/malloc.c:60-85 | The words an allocator writes are in no payload |
| `Heap.ExtendedStored` | kernel/src/mem/malloc.c:60-85 | The writes of `mem_new_block` leave the headers of the extended list in memory |
| `Heap.BlockList.FindBlock` | kernel/src/mem/malloc.c:99-115 | Following the links in memory finds the block of the specification |
| `Heap.BlockList.NewBlock` | kernel/src/mem/malloc.c:60-85 | Memory afterwards holds the list with filler and new block, and no payload changed |
| `Heap.BlockList.Mark` | kernel/src/mem/malloc.c:154-162 | Exactly one used flag changes, and no payload |
| `KernelHeap.AllocInside` | kernel/src/mem/malloc.c:196-206 | An allocation that passes the end-of-heap test leaves every block inside the heap |
| `KernelHeap.AllocAccounts` | kernel/src/mem/malloc.c:175-216 | An allocation adds the size of the block it returns to the used total |
| `KernelHeap.ModestRequestsFit` | kernel/src/mem/malloc.c:196-206 | Requests up to 768 MiB with an alignment up to 16 MiB never make the 32-bit sums wrap around |
| `KernelHeap.EndTestIff` | kernel/src/mem/malloc.c:196-214 | For every list inside the heap, size and alignment for which no block suits and the end-of-heap test passes: the blocks are inside the heap afterwards if and only if the end of the new one fits in 32 bits |
| `KernelHeap.StopsRightlyIff` | kernel/src/mem/malloc.c:175-216 | The kernel stops exactly when the block would leave the heap, if and only if the end-of-heap test does not pass by wrapping around |
| `KernelHeap.HugeRequestsLeaveTheHeap` | kernel/src/mem/malloc.c:196-214 | On a fresh heap, a request of 1 GiB and one of 0xF0000000 bytes aligned to 0xC0000000 pass the test by wrapping around once and twice, and their blocks leave the heap |
| `KernelHeap.Allocator.AlignedAlloc` | kernel/src/mem/malloc.c:175-216 | The block of the specification, inside the heap, with `used_memory` equal to the sum of used payloads; the kernel stops exactly when no block suits and the 32-bit end is behind the heap |
| `KernelHeap.Allocator.Grow` | kernel/src/mem/malloc.c:196-214 | Stops exactly when the 32-bit end of the new block is behind the heap, and then changes nothing |
| `KernelHeap.Allocator.Kfree` | kernel/src/mem/malloc.c:154-162 | The block is free again, NULL changes nothing, and the accounting stays exact |
| `UserHeap.Allocator.Sbrk` | libraries/libc/src/stdlib/malloc.c:49-52 | For an amount that is not negative: the old break, which moves by the amount, or -1 and no change |
| `UserHeap.AmountIff` | libraries/libc/src/stdlib/malloc.c:119-124 | The amount passed to the kernel is the number of missing bytes if and only if these are fewer than 2 GiB, and negative otherwise |
| `UserHeap.BreakIff` | libraries/libc/src/stdlib/malloc.c:110-127 | When no block suits, the new block lies below the break, as it is once the kernel has granted what it was asked for, if and only if its end fits in 32 bits |
| `UserHeap.HarmlessIff` | libraries/libc/src/stdlib/malloc.c:110-127 | What `AlignedAlloc` demands of a request holds if and only if NULL is returned or the block lies below the break, and the kernel is not asked for a negative amount |
| `UserHeap.Allocator.RefusedIs` | libraries/libc/src/stdlib/malloc.c:99-124 | Nothing is refused when the kernel grants what it is asked for; without the first header everything is; and later exactly a request that no free block suits, whose 32-bit end is behind the break, when the kernel refuses |
| `UserHeap.HugeRequestPassesTheBreak` | libraries/libc/src/stdlib/malloc.c:95-128 | With the break at 0x20000 a first request of 0xFFFFF000 bytes gets a block that ends far behind the break without asking for it |
| `UserHeap.Allocator.AlignedAlloc` | libraries/libc/src/stdlib/malloc.c:95-128 | The block of the specification, below the break; NULL exactly when the kernel refused the first header, or no block suits, the 32-bit end is behind the break and the kernel refused the missing bytes; and then no block changed |
| `UserHeap.Allocator.Free` | libraries/libc/src/stdlib/malloc.c:134-140 | The block is free again, and no payload changed |
| `UserHeap.Allocator.Realloc` | libraries/libc/src/stdlib/malloc.c:155-177 | NULL allocates, size 0 frees; otherwise a new block with the old contents as far as both reach, the old block free, everything else untouched; a refusal, exactly when memory is needed and not granted, changes nothing |
| `PmmSpec.LowestIs` | kernel/src/mem/pmm.c:324-353 | The search result is the lowest free run, or 0 and there is none |
| `PmmSpec.ScanFree` | kernel/src/mem/pmm.c:324-353 | A free frame completes the lowest run or extends the current one |
| `PmmSpec.ScanUsed` | kernel/src/mem/pmm.c:324-353 | Used frames, one or a whole word of them, end the current run and hide no free run |
| `PmmSpec.FirstFree` | kernel/src/mem/pmm.c:308-320 | The first unused frame is the lowest run of one |
| `PmmSpec.AlignUp` | kernel/src/mem/pmm.c:193-211 | A multiple of 1024 frames, above its argument and at most 1024 frames away |
| `PmmSpec.GrantIsFree` | kernel/src/mem/pmm.c:166-238 | A grant consists of free frames inside the searched range, never frame 0, and is empty only if there is no such run |
| `PmmSpec.LargeIsFree` | kernel/src/mem/pmm.c:193-211 | So does a large grant; it starts at a multiple of 4 MiB and lies inside the free run found |
| `PmmSpec.OnePageIff` | kernel/src/mem/pmm.c:166-181 | One page is found if and only if some frame is free, and then one free frame less is left |
| `PmmLedger.StepSound` | kernel/src/mem/pmm.c:166-267 | Each call that gives back only held frames keeps grants disjoint and the used frames equal to reserved plus held |
| `PmmLedger.NoFrameHandedOutTwice` | kernel/src/mem/pmm.c:166-267 | Over every run of allocations, refused or not, and of releases of held frames, singly or in rows: no frame is in two live grants, no reserved frame is handed out, and no frame leaks |
| `PmmLedger.CounterFollowsBitmap` | kernel/src/mem/pmm.c:276-300 | Over every such run the counter of used blocks changes exactly as the bitmap does |
| `PmmLedger.LimitIs` | kernel/src/mem/pmm.c:308-345 | The searches cover all frames but those of a last word that is not full, and the counter leaves as many spare frames as it is below their number |
| `PmmRuns.Perform` | kernel/src/mem/pmm.c:166-267 | Each call of the allocator is the step of the ledger; the kernel stops exactly when a page is asked for and the counter says nothing is left |
| `PmmRuns.Serve` | kernel/src/mem/pmm.c:166-267 | Any run of calls that gives back only held frames is a run of the ledger, up to the point where the kernel stops if it does |
| `Pmm.ScanWord` | kernel/src/mem/pmm.c:330-350 | The bits of one word continue the scan correctly |
| `Pmm.Manager.MmapSet` | kernel/src/mem/pmm.c:276-286 | The used set gains the frame and the counter goes up, in 32 bits |
| `Pmm.Manager.MmapUnset` | kernel/src/mem/pmm.c:288-300 | The used set loses the frame and the counter goes down |
| `Pmm.Manager.MmapTest` | kernel/src/mem/pmm.c:302-304 | True exactly for used frames |
| `Pmm.Manager.InitRegion` | kernel/src/mem/pmm.c:126-137 | The blocks of the region become free, except frame 0 |
| `Pmm.Manager.FindFree` | kernel/src/mem/pmm.c:308-320 | The lowest free frame of the searched words, or 0 |
| `Pmm.Manager.FindFreeFrame` | kernel/src/mem/pmm.c:324-353 | The lowest start of n consecutive free frames, or 0, in spite of skipping full words |
| `Pmm.Manager.AllocPage` | kernel/src/mem/pmm.c:166-181 | The lowest free frame is marked and returned; 0 and no change if there is none; the kernel stops when the counter says so |
| `Pmm.Manager.AllocPages` | kernel/src/mem/pmm.c:222-238 | Exactly the granted run is marked and counted and its address returned, or nothing changes |
| `Pmm.Manager.AllocAlignedLargePage` | kernel/src/mem/pmm.c:193-211 | 4 MiB on a 4 MiB boundary inside the free run found are marked and counted, or nothing changes |
| `Pmm.Manager.FreePage` | kernel/src/mem/pmm.c:247-250 | Exactly the frame of the address becomes free, also frame 0 |
| `Pmm.Manager.FreePages` | kernel/src/mem/pmm.c:261-267 | Exactly the frames of the range become free, also frame 0 |
| `Shm.DisjointAdd` | kernel/src/mem/shm.c:41-84 | A new object on frames nobody used keeps the objects disjoint |
| `Shm.DisjointDrop` | kernel/src/mem/shm.c:129-152 | Dropping an object and its frames keeps the others disjoint and allocated |
| `Shm.TakingIs` | kernel/src/mem/shm.c:57-67 | Pages are taken one by one: the kernel stops when the counter says nothing is left, the call fails when no frame is, otherwise one of each is gone |
| `Shm.Table.CreatingIff` | kernel/src/mem/shm.c:41-67 | A create succeeds exactly with a size, a free slot, memory, and as many pages as cover the size by the counter and in the bitmap; the kernel stops exactly when the counter is the first to fall short |
| `Shm.Table.Find` | kernel/src/mem/shm.c:23-30 | The first slot with the id |
| `Shm.Table.TakePage` | kernel/src/mem/pmm.c:166-181 | One page nobody used, if and only if a frame is free; the kernel stops if and only if the counter says nothing is left |
| `Shm.Table.AllocAll` | kernel/src/mem/shm.c:60-76 | All pages, distinct and unused before, if and only if counter and bitmap both have enough; the kernel stops if the counter ends first; otherwise bitmap and counter are exactly as they were |
| `Shm.Table.Create` | kernel/src/mem/shm.c:41-84 | Succeeds exactly if there is a size, a slot, memory and enough pages, and adds an object that owns exactly the frames taken; a failed create restores everything |
| `Shm.Table.Map` | kernel/src/mem/shm.c:86-127 | Succeeds exactly for a live object with pages that could be mapped, and takes one reference; otherwise nothing changes |
| `Shm.Table.Close` | kernel/src/mem/shm.c:129-152 | The close that drops the last reference frees exactly the frames of the object; other closes only count down |
| `Numerals.ConvertInteger` | libraries/libc/src/stdio/vcbprintf.c:10-20 | The buffer holds the digits of the value, most significant first |
| `Numerals.DigitsReadBack` | libraries/libc/src/stdio/vcbprintf.c:10-20 | Leading zeros and the digits of a number read back as the number, in every base |
| `Numerals.DigitsAtLeast` | libraries/libc/src/stdio/vcbprintf.c:10-20 | A number has at least n digits if and only if it is not below the power of the base that first needs them |
| `Numerals.DigitsFit` | libraries/libc/src/stdio/vcbprintf.c:386-387 | Every 64-bit value fits the digit buffer in every base used |
| `Numerals.DigitIs` | libraries/libc/src/stdio/vcbprintf.c:354-355 | Digits stand at code 48, letters behind them at code 97, capital ones at code 65 |
| `Numerals.DigitsIff` | libraries/libc/src/stdio/vcbprintf.c:10-20 | The digits of a number are the one numeral of the base that stands for it and does not begin with a zero, in the case asked for |
| `Numerals.ZeroAlone` | libraries/libc/src/stdio/vcbprintf.c:389-392 | The digits are a single 0 exactly for the value zero |
| `Scan.ScanInt` | libraries/libc/src/stdio/scanf.c:34-57 | Value and rest of the input as specified, nothing exactly when there is no digit |
| `Scan.ScanUint` | libraries/libc/src/stdio/scanf.c:59-74 | The same in wrapping 32-bit arithmetic |
| `Scan.ScanHex` | libraries/libc/src/stdio/scanf.c:76-95 | The same in base 16 with an optional 0x |
| `Scan.SkipFrom` | libraries/libc/src/stdio/scanf.c:28-32 | Skips exactly the leading white space |
| `Scan.IntRoundTripIff` | libraries/libc/src/stdio/vcbprintf.c:354-449 | Scanning what `%d` prints gives the int back under every flag, width and precision if and only if it is not zero with precision zero |
| `Scan.UintRoundTripIff` | libraries/libc/src/stdio/vcbprintf.c:354-449 | The same for `%u` |
| `Scan.HexRoundTripIff` | libraries/libc/src/stdio/vcbprintf.c:354-449 | The same for `%x`, `%X` and their `#` forms |
| `PrintFormat.PrintThenScan` | libraries/libc/src/stdio/scanf.c:162-253 | For every format that is one specification: printing with it and scanning with its conversion is the identity, with that one exception |
| `ScanFormat.Vsscanf` | libraries/libc/src/stdio/scanf.c:162-253 | The loop assigns the values of the specification, in order |
| `ScanFormat.ScanString` | libraries/libc/src/stdio/scanf.c:97-110 | The next word of the input, nothing when only white space is left |
| `ScanFormat.ValuesOne` | libraries/libc/src/stdio/scanf.c:162-253 | A conversion that finds a value is followed by the rest of the format on the rest of the input |
| `ScanFormat.SpaceInFormat` | libraries/libc/src/stdio/scanf.c:171-177 | A space in the format skips white space of the input |
| `ScanFormat.CharacterMatches` | libraries/libc/src/stdio/scanf.c:179-188 | Any other character of the format has to be the next one of the input |
| `ScanFormat.PercentMatches` | libraries/libc/src/stdio/scanf.c:190-201 | Two percent signs stand for one |
| `ScanFormat.NothingStops` | libraries/libc/src/stdio/scanf.c:162-253 | Behind a conversion that finds nothing no value is assigned |
| `ScanFormat.ListReadsBack` | libraries/libc/src/stdio/scanf.c:162-253 | Any list of integers printed with any specifications and spaces between them is read back whole by the matching format |
| `PrintScan.SameFormatBothWays` | libraries/libc/src/stdio/scanf.c:162-253 | Printing any integers with any list of d, u, x and X conversions and scanning the text with the very same format string gives all of them back |
| `PrintScan.EmitList` | libraries/libc/src/stdio/vcbprintf.c:64-118 | A list of bare conversions with spaces prints the integers with spaces |
| `PrintScan.SpaceIs` | libraries/libc/src/stdio/scanf.c:6-8 | White space is the six characters of the C locale |
| `PrintScan.WordRead` | libraries/libc/src/stdio/scanf.c:97-110 | %s reads the next word behind any white space, up to white space or the end of the input |
| `PrintScan.CharRead` | libraries/libc/src/stdio/scanf.c:162-253 | %c reads the next character |
| `PrintScan.WordBothWays` | libraries/libc/src/stdio/scanf.c:162-253 | A word printed with %s is read back by %s |
| `PrintScan.CharBothWays` | libraries/libc/src/stdio/scanf.c:162-253 | A character printed with %c is read back by %c |
| `PrintSpec.PrecisionIff` | libraries/libc/src/stdio/vcbprintf.c:393-434 | The digits reach the precision, as section 7.21.6.1 of C11 wants it, if and only if there is neither sign nor radix to print or the value is large enough to have so many digits |
| `PrintSpec.PrecisionFallsShort` | libraries/libc/src/stdio/vcbprintf.c:428-434 | Minus five with precision three prints -05 |
| `PrintFormat.EmitOne` | libraries/libc/src/stdio/vcbprintf.c:64-118 | A format that is one specification prints one conversion |
| `PrintMeaning.SpecRead` | libraries/libc/src/stdio/vcbprintf.c:120-263 | Any flags in any order, a width and a precision that are written, taken from an argument or left out, and a length modifier are read as they are meant |
| `PrintMeaning.SpecPrints` | libraries/libc/src/stdio/vcbprintf.c:64-118 | Behind a specification the format goes on with the arguments it has not used |
| `PrintMeaning.TextPrints` | libraries/libc/src/stdio/vcbprintf.c:71-91 | Text without percent signs prints as it stands |
| `PrintMeaning.PercentPrints` | libraries/libc/src/stdio/vcbprintf.c:96-103 | Two percent signs print one |
| `PrintMeaning.StringPrints` | libraries/libc/src/stdio/vcbprintf.c:537-579 | %s prints the string its argument points to, "(null)" for a null pointer, cut to the precision and to 8192 characters, with spaces up to the width on the left, or on the right with a minus flag |
| `PrintMeaning.PlainString` | libraries/libc/src/stdio/vcbprintf.c:537-579 | Without width and precision it prints the string |
| `PrintMeaning.CharPrints` | libraries/libc/src/stdio/vcbprintf.c:501-535 | %c prints the character in the low byte of its argument, in its field |
| `PrintMeaning.SignedPrints` | libraries/libc/src/stdio/vcbprintf.c:290-323 | %d and %i print the number their argument holds, for every length modifier |
| `PrintMeaning.UnsignedPrints` | libraries/libc/src/stdio/vcbprintf.c:324-352 | %u, %o, %x and %X print the number their argument holds, for every length modifier |
| `PrintMeaning.PointerPrints` | libraries/libc/src/stdio/vcbprintf.c:283-289 | %p prints the word as %x does, with the mark of the base the other way round |
| `PrintMeaning.PlainInteger` | libraries/libc/src/stdio/vcbprintf.c:276-449 | Without anything else an integer prints as a minus sign if it is negative and its usual numeral: octal for o, hexadecimal in lower case for x and in capitals for X, decimal otherwise |
| `PrintMeaning.TextIsLaid` | libraries/libc/src/stdio/vcbprintf.c:354-449 | Sign (minus, else plus before space, for d only), mark of the base, zeros and numeral, with spaces on the left, or on the right for a negative width |
| `PrintMeaning.FieldFilledIff` | libraries/libc/src/stdio/vcbprintf.c:398-449 | The field is as wide as asked for if and only if there is neither sign nor mark, or no precision beyond the digits, or the number is that wide anyway |
| `PrintMeaning.FieldFallsShort` | libraries/libc/src/stdio/vcbprintf.c:398-449 | Minus five with width six and precision three is one space short |
| `PrintEngine.Sink.Callback` | libraries/libc/src/stdio/vsnprintf.c:10-20 | Takes as much as there is room for; the count is full exactly when all of it fitted |
| `PrintEngine.PutInteger` | libraries/libc/src/stdio/vcbprintf.c:354-449 | The five loops and writes put exactly the layout of the integer into the buffer, as far as it fits |
| `PrintEngine.PutPadded` | libraries/libc/src/stdio/vcbprintf.c:501-579 | A character or string in its field, as far as it fits |
| `PrintEngine.TakeSpec` | libraries/libc/src/stdio/vcbprintf.c:120-263 | Flags, width, precision and length modifier as specified |
| `PrintEngine.Turn` | libraries/libc/src/stdio/vcbprintf.c:71-118 | One turn of the loop prints the next piece, or stops with all there is room for |
| `PrintEngine.Vcbprintf` | libraries/libc/src/stdio/vcbprintf.c:64-118 | The buffer holds the longest prefix of the whole text that fits, and the result is the exact length or -1 |
| `PrintEngine.Vsnprintf` | libraries/libc/src/stdio/vsnprintf.c:22-31 | A zero-terminated prefix of the whole text within size bytes, nothing behind it changed; the exact length if all of it fitted, -1 otherwise; with %s and room for the string, the string and its length |
| `Ext2Spec.BlockPtrIs` | kernel/src/fs/ext2.c:47-53 | A block inside the image is found at its offset, without wrap-around |
| `Ext2Spec.PlaceIs` | kernel/src/fs/ext2.c:118-120 | Block and place of a byte are quotient and remainder |
| `Ext2Spec.FileByteIs` | kernel/src/fs/ext2.c:89-151 | A byte of a file is the byte of the image at its place in the block its pointer leads to, 0 in a hole: the first twelve pointers are in the inode, the next in the block the thirteenth leads to, little-endian, and further blocks are holes |
| `Ext2Spec.BlockByteStored` | kernel/src/fs/ext2.c:89-105 | So is every byte of a block |
| `Ext2Spec.ReadReturnsStored` | kernel/src/fs/ext2.c:107-154 | Every byte a read returns is the one stored there |
| `Ext2Spec.RefusedIff` | kernel/src/fs/ext2.c:47-53 | A direct pointer is refused if and only if it is not 0 and its offset, in 32 bits, is behind the image |
| `Ext2Spec.ReadableIs` | kernel/src/fs/ext2.c:136-140 | Reading stops at the first block whose pointer is refused and nowhere else |
| `Ext2Spec.ReadableAll` | kernel/src/fs/ext2.c:123-151 | A file without refused pointers is read to the end of the request |
| `Ext2Spec.ReadStopsAtEndIff` | kernel/src/fs/ext2.c:111-116 | A read stops at the end of the file if and only if offset plus size does not wrap around (or there is nothing to read) |
| `Ext2Spec.ReadPastTheEnd` | kernel/src/fs/ext2.c:114-116 | Numbers for which the wrapped sum reads past the end |
| `Ext2Spec.ReadInPieces` | kernel/src/fs/ext2.c:107-154 | A read cut in two at any place returns the same bytes, also when a block cannot be read |
| `Ext2.CopyChunk` | kernel/src/fs/ext2.c:123-151 | Exactly one chunk of the buffer becomes the bytes stored in the block, zeros for a hole; a refused pointer changes nothing |
| `Ext2.ReadFile` | kernel/src/fs/ext2.c:107-154 | The buffer gets exactly the bytes stored in the blocks of the file up to the first block whose pointer is refused, and nothing behind them changes |
| `Ext2Dir.RecordsAreLive` | kernel/src/fs/ext2.c:286-303 | Entry i of a block holds the inode and the name of the record at its i-th offset, read byte by byte, which is in use |
| `Ext2Dir.OffsetsIncrease` | kernel/src/fs/ext2.c:286-303 | Live records are listed in order and none twice |
| `Ext2Dir.RecordsComplete` | kernel/src/fs/ext2.c:286-303 | The listed records are exactly those with inode, name and length that the chain of record lengths leads to |
| `Ext2Dir.DirBlockIs` | kernel/src/fs/ext2.c:275-284 | A directory block is read where it lies in the image |
| `Ext2Dir.BlocksInOrder` | kernel/src/fs/ext2.c:275-305 | The entries of a block come after those of the blocks in front of it, in their own order |
| `Ext2Dir.ListingIs` | kernel/src/fs/ext2.c:306-312 | The entries come first; at the root, and only there, "dev" follows them |
| `Ext2Dir.FirstIs` | kernel/src/fs/ext2.c:343-355 | The lookup finds the entry that shows the name first, and nothing exactly when none does |
| `Ext2Dir.LookupAgrees` | kernel/src/fs/ext2.c:259-359 | A name selects the inode of the first index that shows it, nothing exactly when no index does; "dev" at the root leads to the device file system and is the last entry |
| `Ext2Dir.Readdir` | kernel/src/fs/ext2.c:259-314 | The entry at the index of the listing of the twelve direct blocks, then "dev" at the root, then nothing |
| `Ext2Dir.Finddir` | kernel/src/fs/ext2.c:316-359 | The two loops choose as specified |
| `PtySpec.PutAllConcat` | kernel/src/fs/dev/dev_pty.c:58-65 | How bytes are cut into queue writes makes no difference |
| `PtySpec.PutAllIs` | kernel/src/fs/dev/dev_pty.c:58-65 | A queue keeps what fits, 4095 bytes in all, and drops the rest |
| `PtySpec.FeedInPieces` | kernel/src/fs/dev/dev_pty.c:164-202 | How master writes are cut makes no difference, in any mode and at any fill level |
| `PtySpec.FeedCounts` | kernel/src/fs/dev/dev_pty.c:164-202 | A write counts the bytes that were typed or sent, not those that were dropped, erase, or find no room |
| `PtySpec.TranslateIs` | kernel/src/fs/dev/dev_pty.c:97-116 | With ISTRIP the low seven bits count; then IGNCR drops a carriage return, ICRNL makes it a newline, INLCR makes a newline a carriage return |
| `PtySpec.ReturnIgnored` | kernel/src/fs/dev/dev_pty.c:97-116 | A carriage return does nothing under IGNCR |
| `PtySpec.OutputIsProcessed` | kernel/src/fs/dev/dev_pty.c:118-134 | The master sees the text with a carriage return in front of every newline under ONLCR, a newline for a carriage return under OCRNL, none under ONLRET, as far as there is room |
| `PtySpec.ReturnsAdded` | kernel/src/fs/dev/dev_pty.c:118-134 | With ONLCR alone, leaving out the carriage returns of what the master sees gives a text without them back, and every newline has one in front of it |
| `PtySpec.TextTyped` | kernel/src/fs/dev/dev_pty.c:192-197 | A text byte joins the line and is echoed, unless the line has 4095 bytes |
| `PtySpec.LineEnds` | kernel/src/fs/dev/dev_pty.c:183-190 | A newline, and a carriage return under ICRNL, sends the line and a newline to the slave and is echoed as carriage return and newline under ONLCR |
| `PtySpec.ByteErased` | kernel/src/fs/dev/dev_pty.c:175-181 | Erase takes the last byte off the line and wipes it from the screen, and does nothing on an empty line |
| `PtySpec.RawByte` | kernel/src/fs/dev/dev_pty.c:199-203 | Without line editing every byte goes to the slave at once and is echoed |
| `PtySpec.EditInPieces` | kernel/src/fs/dev/dev_pty.c:164-202 | The same for the line-editing reference |
| `PtySpec.DoneIsFinal` | kernel/src/fs/dev/dev_pty.c:151-202 | Finished lines are never changed by later input and end in a newline |
| `PtySpec.FeedAgrees` | kernel/src/fs/dev/dev_pty.c:164-202 | While nothing is lost the terminal state and the edited text agree |
| `PtySpec.LosesIff` | kernel/src/fs/dev/dev_pty.c:164-202 | A byte makes the terminal fall behind the edited text if and only if the line or the queue of the slave has no room for it |
| `PtySpec.SlaveReadsTheEditedText` | kernel/src/fs/dev/dev_pty.c:151-250 | Over every interleaving of writes and reads without loss, what the slave has read and can read is exactly the finished lines of the edited input |
| `Pty.Fifo.Write` | kernel/src/fs/dev/dev_pty.c:58-65 | Appends what fits and drops the rest |
| `Pty.Fifo.Read` | kernel/src/fs/dev/dev_pty.c:67-74 | Returns and removes the first bytes |
| `Pty.Terminal.WriteOutput` | kernel/src/fs/dev/dev_pty.c:118-134 | Output processing of every byte as specified |
| `Pty.Terminal.EchoBytes` | kernel/src/fs/dev/dev_pty.c:136-149 | Echo as specified |
| `Pty.Terminal.CommitLine` | kernel/src/fs/dev/dev_pty.c:151-162 | The line and its newline go to the slave, and the line is empty again |
| `Pty.Terminal.TakeByte` | kernel/src/fs/dev/dev_pty.c:170-200 | One translated byte as specified |
| `Pty.Terminal.MasterWrite` | kernel/src/fs/dev/dev_pty.c:164-202 | The buffers follow the byte transducer of the specification |
| `Pty.Terminal.SlaveRead` | kernel/src/fs/dev/dev_pty.c:236-250 | The oldest bytes of the slave queue are handed over |
| `Div64.DivideStep` | libraries/libc/src/stdlib/div64.c:3-13 | One round keeps quotient and remainder of the leading bits, and the shift never overflows |
| `Div64.Udiv` | libraries/libc/src/stdlib/div64.c:3-13 | The exact quotient for every 64-bit dividend and every divisor from 1 on |
| `Div64.Umod` | libraries/libc/src/stdlib/div64.c:15-23 | The exact remainder |
| `Div64.TruncLaws` | libraries/libc/src/stdlib/div64.c:25-39 | Truncating division and its remainder satisfy section 6.5.5 of C11 |
| `Div64.Div` | libraries/libc/src/stdlib/div64.c:25-31 | The quotient truncated toward zero, except for the one that does not fit, which wraps |
| `Div64.Mod` | libraries/libc/src/stdlib/div64.c:33-39 | The remainder with the sign of the dividend |
| `LineDraw.MinorIsNearest` | libraries/libgui/src/graphics.c:10-58 | The rounded ideal value is within half a pixel of the line |
| `LineDraw.NearIsUnique` | libraries/libgui/src/graphics.c:10-58 | Only one pixel of a column is that near |
| `LineDraw.Advance` | libraries/libgui/src/graphics.c:24-31 | The test on the error term takes the nearest next pixel and keeps the error-term equation |
| `LineDraw.ErrorTermRange` | libraries/libgui/src/graphics.c:10-58 | The error term stays within twice the longer extent, so lines with extents below 2^30 never leave 32 bits, in the middle of an iteration either |
| `LineDraw.WalkIsMinor` | libraries/libgui/src/graphics.c:10-58 | The walk takes exactly the nearest pixels |
| `LineDraw.MinorAtEnd` | libraries/libgui/src/graphics.c:10-58 | The walk ends on the far coordinate |
| `LineDraw.LowPointsAreNear` | libraries/libgui/src/graphics.c:10-33 | Every point of a shallow line is within half a pixel of the ideal line |
| `LineDraw.HighPointsAreNear` | libraries/libgui/src/graphics.c:35-58 | Every point of a steep line is, too |
| `LineDraw.LineIff` | libraries/libgui/src/graphics.c:10-190 | A point belongs to the line if and only if it lies within half a pixel of it in a step along the longer axis, without the end that has the larger coordinate there; horizontal and vertical lines have both ends |
| `LineDraw.LineIsSymmetric` | libraries/libgui/src/graphics.c:166-190 | The points are the same with the ends swapped |
| `LineDraw.Canvas.DrawnIs` | libraries/libgui/src/graphics.c:119-126 | Exactly the visible points get the colour |
| `LineDraw.Canvas.DrawPixel` | libraries/libgui/src/graphics.c:119-126 | One pixel if it is on the canvas, nothing otherwise |
| `LineDraw.Canvas.DrawLineLow` | libraries/libgui/src/graphics.c:10-33 | Draws the points of the shallow line and ends on its far end |
| `LineDraw.Canvas.DrawLineHigh` | libraries/libgui/src/graphics.c:35-58 | Draws the points of the steep line and ends on its far end |
| `LineDraw.Canvas.DrawRow` | libraries/libgui/src/graphics.c:60-87 | Cutting to the canvas first colours exactly the visible points of the row |
| `LineDraw.Canvas.DrawColumn` | libraries/libgui/src/graphics.c:89-117 | The same for a column |
| `LineDraw.Canvas.DrawLine` | libraries/libgui/src/graphics.c:166-190 | Colours exactly the points of the ideal line that are on the canvas, and nothing else |
| `PathSpec.TokensJoin` | libraries/libc/src/pathutil.c:48-51 | Splitting undoes joining |
| `PathSpec.TokensConcat` | libraries/libc/src/pathutil.c:55-69 | The segments of a joined path are those of its parts, one after the other |
| `PathSpec.ParentCancels` | libraries/libc/src/pathutil.c:33-38 | A segment followed by ".." can be taken out anywhere |
| `PathSpec.DotIsNothing` | libraries/libc/src/pathutil.c:30-32 | So can "." |
| `PathSpec.RootHasNoParent` | libraries/libc/src/pathutil.c:33-38 | ".." at the root stays at the root |
| `PathSpec.PlainStays` | libraries/libc/src/pathutil.c:39-41 | Plain segments resolve to themselves |
| `PathSpec.CapIsInvisibleIff` | libraries/libc/src/pathutil.c:39-41 | The bound of 64 makes no difference to the result if and only if the path comes through the root at some point from which on it never goes more than 64 segments deep |
| `PathSpec.CatchesUpIff` | libraries/libc/src/pathutil.c:33-41 | A bounded stack that has fallen behind catches up only at the root |
| `PathSpec.TooDeep` | libraries/libc/src/pathutil.c:39-41 | The path of 65 segments that loses one |
| `PathSpec.NeverGrows` | libraries/libc/src/pathutil.c:43-52 | A path that starts with a slash never grows, any other by one character at most |
| `PathSpec.GrowsIff` | libraries/libc/src/pathutil.c:6-53 | The result is longer than the path if and only if the path has at most 255 characters and consists of at most 64 plain segments that need more characters than it has when each gets its slash |
| `PathSpec.OneLetterGrows` | libraries/libc/src/pathutil.c:6-53 | The path "a", which becomes one character longer |
| `PathSpec.NormalForm` | libraries/libc/src/pathutil.c:6-53 | The result is an absolute path of at most 64 segments, none empty, "." or ".." |
| `PathSpec.NormalizeResolvesIff` | libraries/libc/src/pathutil.c:6-53 | A path of at most 255 characters becomes the unbounded stack resolution if and only if it comes through the root at some point from which on it never goes more than 64 segments deep |
| `PathSpec.OverlongIff` | libraries/libc/src/pathutil.c:12-53 | The result is over 255 characters if and only if the first 255 characters of the path grow |
| `PathSpec.IdempotentIff` | libraries/libc/src/pathutil.c:6-53 | Normalising twice is normalising once unless the path has at least 255 characters and its first 255 grow, and never then; such paths do not start with a slash |
| `PathSpec.NotAlwaysIdempotent` | libraries/libc/src/pathutil.c:12-14 | A relative path of 255 letters for which it is not |
| `PathSpec.MakeAbsResolvesIff` | libraries/libc/src/pathutil.c:55-70 | A relative path that fits is resolved from the directory the working directory resolves to, an absolute one from the root, if and only if the joined path recovers in that sense |
| `PathSpec.MakeAbsOverrunsIff` | libraries/libc/src/pathutil.c:55-70 | The result is too long for the output buffer if and only if the buffer is filled by the joined path and what it holds grows when normalised |
| `Path.Split` | libraries/libc/src/pathutil.c:15-42 | Splitting in place leaves the offsets of the resolved segments on the stack, each still readable as a string |
| `Path.Rebuild` | libraries/libc/src/pathutil.c:47-51 | Appending the segments gives the joined path |
| `Path.NormalizePath` | libraries/libc/src/pathutil.c:6-53 | The buffer holds the normal form of what it held, whenever that fits; an empty path is left alone |
| `Path.MakeAbsPath` | libraries/libc/src/pathutil.c:55-70 | The buffer holds the joined, cut and normalised path, whenever that fits |

## Left out

- Hardware: ports, interrupt controllers, paging, context switch, ELF loading and process images; interrupt-protected sections are atomic steps.
- Window server: coordinates are mathematical integers, so 32-bit wrap-around of positions is not modelled; the right and middle mouse buttons in events; opening and reading the device files and their failures; a client's memory is an arbitrary total function of the offset. Runs create fewer windows than there are window ids.
- WmServer.Server.HandleDamage: clears only the half-open rectangle, because libgui sends inclusive edges that the server reads as exclusive.
- SchedRobin.RoundRobin.Add: demands a process that is not on the ring; the source would link a second node to it, and the two nodes would share one sleep counter.
- ProcDriver.Scheduler.Schedule: on rings from which pruning removes nothing, which every run of `ProcRuns.Serve` keeps; `SchedRobin.RoundRobin.Reschedule` states the general case.
- ProcDriver.Scheduler.TimerTick: the same.
- ProcDriver.Scheduler.Sleep: the same.
- ProcDriver.Scheduler.Exit: the same.
- ProcDriver.Scheduler.Spawn: the same.
- ProcDriver.Scheduler.EnterUsermode: the same.
- Scheduler: failure to allocate a node.
- /dev/wm: NULL buffers from the caller.
- Heaps: calloc and zalloc; shrinking krealloc.
- KernelHeap.Allocator.AlignedAlloc: requests that pass the end-of-heap test although the end of the block does not fit in 32 bits; by `KernelHeap.EndTestIff` these are exactly the ones whose blocks leave the heap.
- KernelHeap.Allocator.Grow: the same.
- UserHeap.Allocator.AlignedAlloc: requests that get a block although its end does not fit in 32 bits, which by `UserHeap.BreakIff` are exactly the ones whose blocks pass the break; and requests that lack 2 GiB or more, for which the kernel is asked for a negative amount (`UserHeap.AmountIff`).
- UserHeap.Allocator.Sbrk: negative amounts, which no other request leads to.
- UserHeap.Allocator.Realloc: the same requests, and moving a block to a size above 0xFFFFFFF8, which is rounded to 0 (`HeapSpec.RoundingIff`); contents are copied in whole words, and the up to three bytes of a last partial word are not tracked.
- Physical frames: parsing the boot memory map and pmm_deinit_region; a bitmap word is a sequence of 32 booleans; abort is a `halted` result; the absolute meaning of `used_blocks`.
- Shared memory: filling page tables is a parameter that says whether it succeeded.
- printf: floating point, `%n` and `%m` are outside the model (a format that reaches them has status `Outside`); a width in digits is computed without 32-bit wrap-around, which is undefined in C; an argument slot is read as word, double word or string as the conversion asks.
- Scan.ScanInt: the sum is a mathematical integer, because signed overflow is undefined in C.
- scanf: reading the line from the keyboard.
- ext2: the inode table lookup and the superblock; the model starts from an inode, and whether it is a directory is a parameter. Writing is a stub in the source.
- Ext2.ReadFile: images that end in the middle of a block a pointer leads to, where the source reads past the image.
- Ext2.CopyChunk: the same images.
- Pseudo terminal: ioctl, opening and numbering terminals.
- libgui: lines with an extent of 2^30 or more, whose error term can leave 32 bits (`LineDraw.ErrorTermRange`); rectangles, borders, glyphs and images, which would only add easy members.
- Path.NormalizePath: a buffer in which the result does not fit, which the source overruns; beyond the room for the path itself this is possible exactly for the paths of `PathSpec.GrowsIff`.
- Path.MakeAbsPath: a buffer in which the result does not fit, exactly as `PathSpec.MakeAbsOverrunsIff` says; the join is written directly instead of through snprintf, since both keep the longest prefix that fits and only its first 255 characters matter.
- Simple devices, syscall dispatch, shell and demo programs.
