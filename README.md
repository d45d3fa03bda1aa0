# SuperButton classification engine, modelled in Dafny

SuperButton is a FreeRTOS button library. It turns pin interrupts on one or
more GPIO buttons into click events: `ButtonDown`, `ButtonUp`, `SingleClick`,
`MultiClick` (with the number of clicks), `LongPressStart` and `LongClick`.
`src/superbutton_rtos.c` does this with four parts:

- `superbutton_init` fills an array of per-button records (`button_press_info_t`).
- `button_isr_handler` samples the pin and stamps the record with its level, its tick and a busy flag.
- A consumer task wakes on each interrupt, or after a 200-tick timeout while a button is busy. On each wake it runs one decision pass over every record.
- `send_event` copies a record into the event that goes to the caller's queue.

A decision for a busy record works in five stages:

1. **Debounce.** Nothing happens unless more than 25 ticks have passed since the last confirmed change.
2. **Announce.** On a level change it sends `ButtonDown` or `ButtonUp`.
3. **Count.** It counts a confirmed release as a click.
4. **Classify.** It classifies by the time since the last confirmed change:
   - the multi-click window, from 200 up to but not including 400 ticks, reports `SingleClick` or `MultiClick`;
   - from 400 ticks on, it reports `LongPressStart` for a button still held, or `LongClick` for one pending click.
5. **Commit.** It commits the new level and its tick.

The project has four modules:

- `SuperButtonDefs` (`superbutton_defs.dfy`) holds the types and constants of the headers: the 32-bit tick, the click types, the levels and the event record.
- `Decision` (`decision.dfy`) holds one record as a value:
  - the interrupt's update of it;
  - the record `superbutton_init` builds;
  - the `send_event` copy;
  - what one visit of the pass does. This is `Decide`, built from the four stages `Announce`, `CountClick`, `Classify` and `Commit`, with lemmas about each window.
- `SuperButtonRtos` (`engine.dfy`) holds the state as the source keeps it, in class `SuperButton`:
  - the record array;
  - the task's `queue_receive_delay` and `isbusy`;
  - the events sent, as a sequence.

  Its methods follow the C code step by step and are proved against the functions of `Decision` and against the whole-pass functions `PassRecords`, `PassEvents` and `SeenBusy`.
- `Traces` (`traces.dfy`) holds one button's history as a sequence of interrupts and wakes. It proves:
  - the record stays well-formed;
  - `LongPressStart` is sent at most once per hold;
  - the single-click, double-click, N-click and long-press gestures drawn in `src/superbutton_rtos_defs.h` produce the events the drawings promise.
  - a press released at or past 400 ticks with no timeout in between ends in `LongClick` without `LongPressStart`.

The model follows the code in these choices:

- **Ticks.** Ticks are `TickType_t`, an unsigned 32-bit count. The elapsed period is the subtraction modulo 2^32, so a tick counter that wraps is handled as the C code handles it. `configTICK_RATE_HZ` is fixed at 1000, so `pdMS_TO_TICKS(ms)` is `ms`.
- **Counters.**
  - `click_count` in the record is a `uint16_t` whose `++` wraps.
  - In the event it is a `uint8_t`, so the count is taken modulo 256.
  - `superbutton_init` leaves `click_count` out of its designated initializer, so C sets it to 0.
  - `duration_ms` is never written, so every event carries 0.
- **Which tick a pass uses.** After a receive timeout, each busy record is decided at the tick that `xTaskGetTickCount()` returns when the loop reaches it (line 160), so a pass reads the clock once per busy record. `Pass` therefore takes one tick per visit, in visiting order, and visit `o` uses the `o`-th. Otherwise each busy record is decided at its own last interrupt tick; this applies to all records, not only the one that interrupted.
- **The start index.** After a timeout, `args` is never written by `xQueueReceive`. The pass's start index is therefore an arbitrary `uint8_t`; the model takes any `start < 256` and proves that every record is visited exactly once.

Some consequences of the code that a user of the library may not expect:

- **Debounce test.** The test is `period > 25`, strict (line 172): a level confirmed exactly 25 ticks ago still blocks a decision.
- **The interrupt handler writes the records.** The handler writes `current_level`, `current_tick_count` and `is_busy` straight into the shared record (lines 113-124), not through the queue.
- **Timing constants.**
  - The debounce, multi-click gap and long-press gap are fixed at 25, 200 and 400 ms (`src/superbutton_rtos_defs.h:27-29`), and the busy wait at 200 ticks (line 241).
  - `superbutton_init` takes no timing configuration.
  - `superbutton_init` does not check for an empty button list.
- **A long press followed by a release.**
  - `LongPressStart` is sent by a pass that decides the held button at a tick 400 or more after the press. A pass woken by an interrupt decides at the button's last interrupt tick (line 160). After a clean press, with no later interrupt of that button, that is the press tick itself, and only a receive timeout sends `LongPressStart`. A bounce 400 ticks or more into the press, an interrupt reading Up and then one reading Down, moves that tick, and the pass it wakes sends `LongPressStart` with no timeout (`Traces.BounceStartsLongPress`).
  - When the task's timeouts reach the held button, the press and the release give `ButtonDown`, `LongPressStart`, `ButtonUp`, `LongClick` (`Traces.LongPressGesture`). A 600-tick press with a timeout at 200 and another at 400 ticks ends this way.
  - When no such timeout comes before the release, the release itself is decided at or past 400 ticks. It gives `ButtonDown`, `ButtonUp`, `LongClick`, with no `LongPressStart` (`Traces.UnwatchedLongPress`). This happens when other buttons' interrupts wake the task less than 200 ticks apart for the whole press; those passes decide the held button at its press tick and change nothing.
  - With one click pending before the press, a timeout in the multi-click window while the button is held sends that click as a `SingleClick` while the button is still down. The count starts again, so a release at or past 400 ticks, before the next timeout, gives `ButtonUp` and a `LongClick` (`Traces.ClickThenLongClick`).
  - With one click pending and no timeout until such a release, the release counts a second click, which the long window does not classify. It also confirms the release tick, so the next timeout, 200 to 400 ticks later, sends a `MultiClick` with count 2 (`Traces.ClickThenLateRelease`). The long press is reported as the second click of a double click.
- **Late multi-clicks.** Two or more released clicks that are first decided at or past the 400-tick gap match no branch (`Decision.LateMultiClickStaysPending`):
  - nothing is sent;
  - the record stays busy, and the same holds at every later decision until the button's next interrupt.
  - The next click adds to the pending count. Pressed at or past 400 ticks after the last release, it sends `ButtonDown` and `ButtonUp`, and the next timeout in the multi-click window reports every pending click and the new one in one `MultiClick` (`Traces.PendingClicksMerge`).
  - The period is a 32-bit tick difference. After 2^32 ticks without an interrupt, about 49.7 days at 1000 ticks per second, it falls back below 400, and a timeout decided in the multi-click window then sends the pending clicks.

  This happens when the first timeout after the last release comes 400 ticks or more after it. For example, other buttons' interrupts keep restarting the 200-tick wait for that long.

## Model

| member | source | states |
|---|---|---|
| Decision.MapLevel | src/superbutton_rtos.c:115-122 | the interrupt's level is never Undef; with pull-down, raw 0 is Up and any other value Down; with pull-up the reverse |
| Traces.RawLevel | src/superbutton_rtos.c:115-122 | for each pull direction and level there is a raw 0/1 pin value that the handler maps back to that level |
| Traces.RawLevelRoundTrip | src/superbutton_rtos.c:115-122 | mapping a raw 0/1 value to a level and back gives the same raw value |
| Decision.IsrUpdate | src/superbutton_rtos.c:113-124 | the handler sets the mapped level, the tick and the busy flag and leaves every other field as it was; a well-formed record stays well-formed |
| SuperButtonRtos.SuperButton.Isr | src/superbutton_rtos.c:112-124 | three in-place field writes change exactly the interrupted record, to `IsrUpdate` of it, and keep every record well-formed |
| Decision.InitialRecord | src/superbutton_rtos.c:53-63 | a new record has the configured pin and user data, undefined levels, zero ticks and count, an empty click type, is not busy and is well-formed; every visit of it leaves it unchanged and sends nothing |
| SuperButtonRtos.SuperButton.constructor | src/superbutton_rtos.c:41-66 | one record per configured button, each the initial record of its configuration in the same order; the wait starts unbounded, nothing is busy and nothing has been sent |
| Decision.Elapsed | src/superbutton_rtos.c:167 | the unsigned 32-bit difference: plain subtraction when the tick has not wrapped, plus 2^32 when it has; adding it to the earlier tick modulo 2^32 gives the later tick |
| Decision.IncCount | src/superbutton_rtos.c:183 | `click_count++` on a `uint16_t`: adds one below 65535 and wraps 65535 to 0 |
| Decision.EventOf | src/superbutton_rtos.c:250-256 | the event has the record's pin, user data and click type; its count is the record's count modulo 256 and equals it below 256; its duration is 0 |
| SuperButtonRtos.SuperButton.SendEvent | src/superbutton_rtos.c:250-258 | exactly one event, `EventOf` the record, is appended to the sent events |
| Decision.Announce | src/superbutton_rtos.c:174-179 | only the click type may change; on a level change, exactly one event is sent, with the new level's tag, and the click type is Empty afterwards; with no change, nothing happens |
| Decision.CountClick | src/superbutton_rtos.c:181-189 | a release of a confirmed press (sampled Up, confirmed Down) counts one click, wrapping at 16 bits, and keeps the busy flag; an Up with no confirmed level yet keeps the count and clears the busy flag; any other record is unchanged |
| Decision.Classify | src/superbutton_rtos.c:191-223 | below 200 ticks nothing happens. In the window from 200 up to but not including 400 ticks, pending clicks send one SingleClick (one click) or MultiClick carrying the count; the count becomes 0 and the click type Empty; the busy flag stays set only for a button still down. From 400 ticks on, a button held Down with no marker gets one LongPressStart, the marker, count 0 and not busy; otherwise exactly one pending click becomes a LongClick with count 0, type Empty and not busy; anything else is left alone. Only the count, click type and busy flag ever change |
| SuperButtonRtos.SuperButton.ClassifyStep | src/superbutton_rtos.c:191-223 | the step-by-step field updates and sends of the classification give the record and the events of `Classify` |
| Decision.Commit | src/superbutton_rtos.c:227-231 | only the confirmed level and tick may change; on a level change they become the sampled level and tick; with no change the record is unchanged |
| Decision.Decide | src/superbutton_rtos.c:167-237 | a record whose elapsed period is not above the 25-tick debounce is left unchanged and sends nothing |
| Decision.DecideStages | src/superbutton_rtos.c:172-231 | past the debounce, the events are the announced ones followed by at most one classified gesture, which is last exactly when one is sent; the count that the classification sees is the count after release |
| Decision.DecideFrame | src/superbutton_rtos.c:172-231 | a decision never changes the pin, user data, sampled level or sampled tick; the busy flag only clears; every event names the record's pin and user data |
| Decision.DecideSendsAtMostTwo | src/superbutton_rtos.c:174-223 | at most two events per decision, and when there are two the second is a classified gesture |
| Decision.DecideKeepsConsistent | src/superbutton_rtos.c:172-231 | a well-formed record stays well-formed: the stored click type is Empty or the LongPressStart marker, the marker means count 0 and a confirmed Down, an undefined level means idle, and a record that is not busy is settled, with no click pending and its sampled level confirmed |
| Decision.DecideAnnouncesChange | src/superbutton_rtos.c:174-231 | past the debounce, a Down/Up event comes first exactly when the level changed, with the new level's tag and the old count modulo 256; the click type is then Empty, and the confirmed level and tick move to the sampled ones; otherwise they stay |
| Decision.DecideCountsClicks | src/superbutton_rtos.c:181-189 | with no classified gesture the count is the old count plus one exactly on a confirmed Down to Up; after a classified gesture it is 0; an Up after an undefined level ends the activity without counting or classifying |
| Decision.DecideMultiClickWindow | src/superbutton_rtos.c:191-204 | below 200 ticks nothing is classified; in the window from 200 up to but not including 400 ticks, a gesture is sent exactly when clicks are pending: SingleClick for one, MultiClick otherwise. It carries the count, the click type returns to Empty, and a released button stops being busy |
| Decision.DecideLongWindow | src/superbutton_rtos.c:205-222 | from 400 ticks on, a button held Down with no marker gets exactly one LongPressStart, keeps the marker, count 0, not busy; otherwise a LongClick with count 1 is sent exactly when one click is pending, and the button then has click type Empty and is not busy; the two windows never overlap |
| Decision.DecideEndsActivity | src/superbutton_rtos.c:185-222 | a busy record stops being busy exactly in three cases, each past the debounce: an Up after an undefined level, a released button in the multi-click window, or a long-window LongPressStart or LongClick |
| Decision.LateMultiClickStaysPending | src/superbutton_rtos.c:191-222 | two or more released clicks first decided at or past 400 ticks send nothing and leave the record unchanged, still busy |
| Decision.Visit | src/superbutton_rtos.c:152-165 | a record that is not busy is skipped. A busy one is decided at the wake tick after a timeout and at its own interrupt tick otherwise, and is left unchanged inside the debounce. At most two events, all naming the record, and the busy flag only clears. Well-formed records stay well-formed |
| SuperButtonRtos.SuperButton.DecideAt | src/superbutton_rtos.c:167-231 | the in-place field updates of one decision leave that record equal to `Decide` of it and every other record unchanged, and send exactly `Decide`'s events |
| SuperButtonRtos.SuperButton.VisitAt | src/superbutton_rtos.c:152-165 | one loop iteration changes only the visited record, to `Visit` of it, sends `Visit`'s events and raises the pass's busy flag exactly when that record was busy |
| SuperButtonRtos.PassEvents | src/superbutton_rtos.c:150-237 | the events of the first `count` visits of a pass, each visit at its own tick, number at most two per visit |
| SuperButtonRtos.IdlePassSendsNothing | src/superbutton_rtos.c:153-156 | a pass over records none of which is busy sends nothing |
| SuperButtonRtos.PassRecords | src/superbutton_rtos.c:150-237 | the records after the first `count` visits have as many entries as before |
| SuperButtonRtos.PassRecordsAt | src/superbutton_rtos.c:150-160 | after `count` visits from `start`, a record has been visited, once and at the tick of its own visit, exactly when its cyclic distance from `start` is below `count` |
| SuperButtonRtos.PassVisitsAll | src/superbutton_rtos.c:150-160 | a whole pass from any start index replaces every record by `Visit` of it, at the tick read when the pass reaches that record |
| SuperButtonRtos.CyclicOffset | src/superbutton_rtos.c:150-152 | the `o`-th index visited, `(start + o) % len`, is in range and lies `o` steps after `start` |
| SuperButtonRtos.CyclicIndex | src/superbutton_rtos.c:150-152 | every index is visited, at a step below `len` |
| SuperButtonRtos.SeenBusyAt | src/superbutton_rtos.c:149-157 | after `count` visits the pass's busy flag is set exactly when a busy record lies within the first `count` visited |
| SuperButtonRtos.SeenBusyAnywhere | src/superbutton_rtos.c:149-157 | after a whole pass the busy flag is set exactly when some record was busy |
| SuperButtonRtos.PassStep | src/superbutton_rtos.c:150-157 | each visit reaches a record not yet touched by the pass; the records, the events and the busy flag each advance by exactly that visit |
| SuperButtonRtos.SuperButton.VisitNext | src/superbutton_rtos.c:150-165 | an iteration takes the state of the first `j` visits to that of the first `j + 1` |
| SuperButtonRtos.SuperButton.VisitAll | src/superbutton_rtos.c:149-238 | the loop leaves the records as `PassRecords`, appends `PassEvents` and sets the busy flag to `SeenBusy`, all for every record, cyclically from the start index, visit `o` at the `o`-th tick read |
| SuperButtonRtos.SuperButton.Pass | src/superbutton_rtos.c:146-246 | every record becomes `Visit` of itself at the tick read when the loop reaches it. The events sent are those of the visits in cyclic order from the start index. The busy flag is set exactly when some record was busy, and the next wait is then 200 ticks, and unbounded otherwise. All records stay well-formed. When the next wait is unbounded, every record is settled: not busy, no click pending and its sampled level confirmed |
| Traces.Apply | src/superbutton_rtos.c:112-165 | an interrupt applies `IsrUpdate` and sends nothing; a wake applies `Visit`; at most two events, all naming the record; well-formed records stay well-formed |
| Traces.Run | src/superbutton_rtos.c:144-247 | over any sequence of interrupts and wakes, a well-formed record stays well-formed, keeps its pin and user data, sends at most two events per input, and every event names it |
| Traces.RunAppend | src/superbutton_rtos.c:144-247 | running two input sequences one after the other is running their concatenation: the final record is that of the second run and the events are the first run's followed by the second's |
| Traces.ApplyOneLongPressPerHold | src/superbutton_rtos.c:205-214 | from a well-formed record, one input sends no LongPressStart while the record holds the marker, and the marker afterwards records whether a hold is announced |
| Traces.RunOneLongPressPerHold | src/superbutton_rtos.c:174-214 | the same over any run of inputs |
| Traces.SeparatedFromOnePerHold | src/superbutton_rtos.c:205-214 | no LongPressStart during an announced hold implies a ButtonUp between any two LongPressStart events |
| Traces.LongPressStartOncePerHold | src/superbutton_rtos.c:174-214 | on any run from a well-formed record without the marker, between any two LongPressStart events there is a ButtonUp |
| Traces.Press | src/superbutton_rtos.c:172-231 | a settled press of a released record sends ButtonDown and makes Down the confirmed level, stamped with the press tick |
| Traces.Release | src/superbutton_rtos.c:172-231 | a settled release before the multi-click gap sends ButtonUp, counts one more click and keeps the record busy |
| Traces.ClickCounts | src/superbutton_rtos.c:172-231 | a press and a release send ButtonDown then ButtonUp and add one to the count |
| Traces.GapClassifies | src/superbutton_rtos.c:191-204 | a timeout in the multi-click window after pending releases sends one SingleClick or MultiClick with the count and leaves the button idle |
| Traces.SingleClickGesture | src/superbutton_rtos_defs.h:58-65 | a click then a timeout in the multi-click window send ButtonDown, ButtonUp, SingleClick with count 1, and the button ends idle |
| Traces.DoubleClickGesture | src/superbutton_rtos_defs.h:47-56 | two clicks within the gap, then a timeout in the window send Down, Up, Down, Up, MultiClick with count 2, and the button ends idle |
| Traces.HeldPressWaits | src/superbutton_rtos.c:191-204 | a timeout in the multi-click window while a press with nothing pending is held sends nothing and leaves the record as it was, still busy |
| Traces.LongPressGesture | src/superbutton_rtos_defs.h:33-40 | a press, the timeout 200 to 400 ticks later, a timeout at 400 ticks or more, and a release send ButtonDown, LongPressStart, ButtonUp, LongClick with count 1, and the button ends idle |
| Traces.LatePress | src/superbutton_rtos.c:172-222 | a press at or past 400 ticks after the last release, with two or more clicks pending, sends only ButtonDown and confirms the press, keeping the count |
| Traces.HeldClicksReported | src/superbutton_rtos.c:191-206 | clicks pending at a press are reported by a timeout in the multi-click window while the button is held, as a SingleClick for one and a MultiClick otherwise, with the count modulo 256; the count restarts and the record stays busy |
| Traces.BounceStartsLongPress | src/superbutton_rtos.c:115-124 | after a press, an interrupt reading Up and one reading Down 400 ticks or more later, with only the pass that wakes, send ButtonDown and LongPressStart; the record keeps the marker and the press tick and is not busy |
| Traces.ClickThenLongClick | src/superbutton_rtos.c:191-222 | a click pending at the press, a timeout in the multi-click window while held and a release at or past 400 ticks before the next timeout send ButtonDown, SingleClick with count 1, ButtonUp and LongClick with count 1; the button ends idle at the release tick |
| Traces.ClickThenLateRelease | src/superbutton_rtos.c:191-231 | a click pending at the press, no timeout until a release at or past 400 ticks, then a timeout 200 to 400 ticks after the release send ButtonDown, ButtonUp and MultiClick with count 2; the button ends idle at the release tick |
| Traces.PendingClicksMerge | src/superbutton_rtos.c:191-231 | with two or more clicks left pending, a click pressed at or past 400 ticks after the last release and a timeout in the multi-click window send ButtonDown, ButtonUp and one MultiClick counting the pending clicks plus one, modulo 256; the button ends idle |
| Traces.UnwatchedLongPress | src/superbutton_rtos.c:172-222 | a press released 400 ticks or more later, with only the passes the two interrupts wake, sends ButtonDown, ButtonUp and a LongClick with count 1, and no LongPressStart; the button ends idle |
| Traces.ClicksCount | src/superbutton_rtos.c:172-231 | `N` settled clicks, each pressed before the gap after the previous release, send `N` ButtonDown/ButtonUp pairs in turn and leave the record busy with count `N`, stamped with the last release |
| Traces.MultiClickGesture | src/superbutton_rtos_defs.h:42-46 | any `N` of two or more such clicks, then a timeout in the multi-click window, send `N` Down/Up pairs and one MultiClick whose count is `N` modulo 256, and the button ends idle |

## Left out

- GPIO configuration, pull-resistor selection and interrupt installation (`src/superbutton_rtos.c:46-98`) are hardware I/O. The pull mode has no effect on classification; only the pull direction is kept.
- The FreeRTOS calls are not modelled: queue creation, `xQueueSendFromISR`, `xQueueReceive`, `xQueueSend`, `xTaskCreate`, `portYIELD_FROM_ISR` and `vPortYield`.
  - The receive becomes the inputs of `Pass`: the start index, whether it timed out, and the tick `xTaskGetTickCount` returns at each visit. These ticks are arbitrary; that the clock never runs backwards within a pass is not used.
  - The outbound queue becomes the sequence of sent events.
  - A full queue that drops an event is not modelled; every event is appended.
- The race between the interrupt handler and the consumer task is not modelled. The handler is an atomic update between passes; a handler that runs in the middle of a decision is out of scope.
- `Traces.Run` allows a timed-out wake at any tick. It does not follow the task's actual schedule of timeouts, which come 200 ticks after a pass while busy and never while idle. The gesture lemmas put a timeout wherever that schedule puts one between their inputs, except that a wake another button's interrupt causes is not shown.
- The `ESP_LOGI` logging (line 170) is left out, since it only produces output.
- The `button_args` array and `button_info_index` (lines 43, 65, 112) are left out. They only carry the interrupted index, which is `Isr`'s `index` and `Pass`'s `start`.
- `superbutton_create_default_config` is declared in `src/superbutton_rtos.h:116` but has no body, so there is nothing to model. The `superbutton_init` declarations in `src/superbutton_rtos.h:115` and `superbutton_rtos.h:26` disagree with each other; the model follows the definition in `src/superbutton_rtos.c:38`.
- `configTICK_RATE_HZ` is not part of the source. It is fixed at 1000 ticks per second.
- `click_type`'s bit values are not kept. The tags are never combined, so the enumeration is plain.
- The busy flag is not cleared whenever nothing is pending. A record that is not busy is settled (`Decision.Consistent`), so an unbounded wait means nothing is pending. The converse does not hold in the source: a record with nothing left to send can stay busy. A held press stays busy until `LongPressStart` (`Traces.HeldPressWaits`), and late multi-clicks stay busy with nothing to send (`Decision.LateMultiClickStaysPending`), so the task keeps waking every 200 ticks.
- Decision.Decide: states only the debounce case in its own contract. Its other properties are the lemmas `DecideStages`, `DecideFrame`, `DecideSendsAtMostTwo`, `DecideKeepsConsistent`, `DecideAnnouncesChange`, `DecideCountsClicks`, `DecideMultiClickWindow`, `DecideLongWindow` and `DecideEndsActivity`.
- SuperButtonRtos.PassEvents: states only a bound in its own contract; what the events are is stated by `PassStep`, `IdlePassSendsNothing` and the contract of `SuperButton.Pass`.
- SuperButtonRtos.PassRecords: states only the length in its own contract; what the records are is stated by `PassRecordsAt`, `PassVisitsAll` and `PassStep`.
