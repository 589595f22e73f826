# Pomo LED manager and task table — a Dafny model

This project models the two pieces of sequential logic in the early
revision of the Pomo ESP32 firmware:

* **The LED manager** (`components/led_manager`). Callers send display
  commands (`led_item_t`: colour, display type, brightness) through a
  FreeRTOS queue of length 5. The `led_task` loop receives them one at a
  time and applies each one to the strip. SOLID sets the brightness and
  fills the whole strip. SPIN does nothing. FADE_IN flushes
  `LED_FADE_STEPS` (20) frames whose brightness is
  `i * (target / LED_FADE_STEPS)` in integer arithmetic, then one final
  frame at the target. The strip is an immutable record: a `uint8`
  brightness and one colour per pixel. `led_strip_fill` is a pure write on
  that record. Each `led_strip_flush` appends a snapshot of the strip to
  the list of frames shown.
* **The task manager** (`components/task_manager`). The table has
  `MAX_TASKS` (32) slots. `task_init` clears every handle. `task_add`
  claims the lowest free slot, or returns `ESP_FAIL` when none is free. A
  worker started by `task_add` clears its own slot once its iteration
  count passes 10. The table is a sequence of slot records. Creating a task
  is modelled as writing an abstract handle. That handle is passed in as a
  parameter: `Null` stands for a creation that failed.

Files:

* `common.dfy`: `uint8`, `esp_err_t` and `Option`.
* `led_strip.dfy`: the strip record and the fill write.
* `rtos_queue.dfy`: a bounded FIFO queue.
* `led_manager.dfy`: the command interpreter, the fade schedule, the
  public calls and the task loop.
* `task_manager.dfy`: the slot table.

## Model

| member | source | states |
|---|---|---|
| Common.TruncateToUint8 | components/led_manager/led_manager.c:40 | Storing a non-negative `int` into the `uint8_t` brightness keeps the value when it is below 256, and in general keeps it modulo 256 |
| RtosQueue.Create | components/led_manager/led_manager.c:63 | A new queue is empty, has the requested capacity and respects it |
| RtosQueue.Send | components/led_manager/led_manager.c:79 | A send succeeds exactly when the queue is not full; then the item is placed behind the old contents, the old contents are unchanged and the capacity still holds |
| RtosQueue.Receive | components/led_manager/led_manager.c:28 | A receive suspends exactly when the queue is empty; otherwise it yields the front item, and that item followed by the remaining queue is the old contents |
| RtosQueue.DrainIsSendOrder | components/led_manager/led_manager.c:26-28 | Receiving repeatedly until the queue is empty yields the items in the order they were queued |
| RtosQueue.SendIsReceivedLast | components/led_manager/led_manager.c:79 | An item sent to a non-full queue is received after every item already queued |
| LedStrip.Fill | components/led_manager/led_manager.c:33 | `led_strip_fill` over an in-range span paints exactly the pixels of that span in the colour, and leaves every other pixel, the brightness and the length unchanged |
| LedManager.Paint | components/led_manager/led_manager.c:32-33 | Setting the brightness and then filling `[0, strip.length)` gives that brightness, every pixel in the colour, and the same length |
| LedManager.Apply | components/led_manager/led_manager.c:30-53 | Any command keeps the strip length, and whenever frames are flushed the strip is left in the state of the last frame |
| LedManager.RunCommand | components/led_manager/led_manager.c:30-53 | The statement-by-statement version of the switch, with the fade loop, produces exactly the strip and frames of `Apply` |
| LedManager.FadeLevelFits | components/led_manager/led_manager.c:40 | For every `uint8` target and step below 20, `i * (target / 20)` is below 256, so the product fits in a byte |
| LedManager.FadeLevel | components/led_manager/led_manager.c:40 | The brightness stored at fade step `i` is exactly `i * (target / 20)` in integer arithmetic, with nothing lost to the `uint8_t` store |
| LedManager.FadeScheduleShape | components/led_manager/led_manager.c:39-40 | The fade starts at brightness 0, never decreases from one step to the next, and never exceeds the target |
| LedManager.FadeBelowStepsIsDark | components/led_manager/led_manager.c:40 | A target below `LED_FADE_STEPS` makes every intermediate frame dark, because integer division gives a zero increment |
| LedManager.DefaultFadeCountsUp | components/led_manager/led_manager.c:40 | With the default brightness of 20, step `i` has brightness `i` |
| LedManager.SolidShowsColor | components/led_manager/led_manager.c:31-35 | SOLID flushes one frame and leaves the strip at the command's brightness with every pixel in `[0, length)` in the command's colour |
| LedManager.SpinIsNoOp | components/led_manager/led_manager.c:36-37 | SPIN flushes nothing and leaves the strip unchanged |
| LedManager.FadeInFrames | components/led_manager/led_manager.c:38-52 | FADE_IN flushes exactly 20 frames at brightness `i * (target / 20)`, then a final frame at exactly the target; every frame fills the whole strip with the colour, and the strip ends in the final frame's state |
| LedManager.Init | components/led_manager/led_manager.c:57-70 | `led_init` returns `ESP_OK` with an empty queue of capacity 5 and a 12-pixel strip at brightness 20 |
| LedManager.SetColor | components/led_manager/led_manager.c:72-82 | `led_set_color` adds exactly one SOLID command behind the queued ones, with the given colour and the default brightness, and returns `ESP_OK`. It leaves the strip and the shown frames alone and blocks exactly when the queue is full |
| LedManager.StartFadeIn | components/led_manager/led_manager.c:84-94 | `led_fade_in` adds exactly one FADE_IN command behind the queued ones, with the given colour and the default brightness, and returns `ESP_OK`. It leaves the strip and the shown frames alone and blocks exactly when the queue is full |
| LedManager.TaskStep | components/led_manager/led_manager.c:26-54 | One pass of `led_task` suspends exactly when the queue is empty; otherwise it removes the front command only and applies that command to the strip, appending its frames |
| LedManager.RunUntilIdle | components/led_manager/led_manager.c:26-54 | The `led_task` receive loop, run until nothing is queued, ends with an empty queue and keeps the strip length |
| LedManager.RunUntilIdleReplaysQueue | components/led_manager/led_manager.c:26-54 | Running the task until the queue is empty interprets the queued commands in FIFO order, one after another |
| LedManager.SetColorAfterInit | components/led_manager/led_manager.c:72-82 | After `led_init`, `led_set_color(c)` and one task pass show a single frame of all 12 pixels in `c` at brightness 20 |
| LedManager.FadeInAfterInit | components/led_manager/led_manager.c:84-94 | After `led_init`, `led_fade_in(c)` and one task pass show 21 frames in `c` with brightness 0, 1, ..., 20 |
| TaskManager.BootTableStartsEmpty | components/task_manager/task_manager.c:14 | The zero-initialised table has no occupied slot, so the first `task_add` claims slot 0 |
| TaskManager.Claim | components/task_manager/task_manager.c:44 | Task creation writes the new handle into the chosen slot only; that slot's other fields and every other slot are untouched |
| TaskManager.StaticTable | components/task_manager/task_manager.c:14 | The zero-initialised table has 32 slots, every one free, with the first task type and both flags false |
| TaskManager.TaskInit | components/task_manager/task_manager.c:16-22 | `task_init` returns `ESP_OK` with all 32 slots free and every other slot field unchanged |
| TaskManager.FirstFreeFrom | components/task_manager/task_manager.c:41-47 | The scan from an index returns the lowest free slot at or after it, or nothing when every slot from there on is occupied |
| TaskManager.FirstFree | components/task_manager/task_manager.c:41-47 | A free slot is found exactly when the table is not full, and it is the lowest-index free slot |
| TaskManager.Add | components/task_manager/task_manager.c:39-55 | `task_add` fails exactly when no slot is free, and then the table is unchanged; the table always keeps 32 slots |
| TaskManager.AddClaimsFirstFree | components/task_manager/task_manager.c:41-45 | On success the lowest free slot receives the new handle and becomes occupied. Its other fields and all other slots are untouched. The occupied count rises by one and stays at most 32 |
| TaskManager.AddIgnoresType | components/task_manager/task_manager.c:39-55 | The task type argument changes neither the slot chosen nor the result |
| TaskManager.OccupiedSet | components/task_manager/task_manager.c:44 | Writing a handle into a free slot raises the occupied count by exactly one |
| TaskManager.OccupiedRelease | components/task_manager/task_manager.c:33 | Clearing an occupied slot lowers the occupied count by exactly one |
| TaskManager.TaskAdd | components/task_manager/task_manager.c:39-55 | The loop version agrees with `Add` for any task type. Its loop index is always in `[0, 32]` and equals 32 exactly on failure. Otherwise the index is the lowest free slot, and only that slot is written |
| TaskManager.Release | components/task_manager/task_manager.c:33 | A worker's release frees its own slot. It keeps that slot's other fields and leaves every other slot untouched |
| TaskManager.SampleTask | components/task_manager/task_manager.c:24-37 | A worker runs exactly 11 iterations and then frees its own slot and nothing else |
| TaskManager.ReleasedSlotIsEligible | components/task_manager/task_manager.c:32-45 | After a release, the next `task_add` succeeds whatever handle task creation yields, at that slot or a lower one. It takes exactly that slot when every lower slot is occupied |
| TaskManager.AddThenReleaseRestores | components/task_manager/task_manager.c:33-45 | A worker's release exactly undoes the `task_add` that claimed its slot |
| TaskManager.FreshTableFillsInOrder | components/task_manager/task_manager.c:41-45 | When exactly slots `0..n-1` are occupied, the next claim is slot `n`, and `n` slots are counted as occupied |

## Left out

- `components/wifi_manager/wifi_manager.c` and `main/main.c`: these only sequence ESP-IDF network-interface, event-loop, Wi-Fi and NVS calls. They have no logic of their own. `wifi_connect_to_ap` and `wifi_start_config_server` are declared in `wifi_manager.h:18,20` but not defined in this revision.
- Hardware and RTOS effects: `led_strip_install`, GPIO and strip type, `vTaskDelay` timing, `vTaskDelete`, task priorities and stack sizes, and all logging.
- Concurrency: `led_task` runs alongside its senders, and workers run alongside `task_add`. The model runs them as explicit sequential steps. A full queue shows up as a `Blocked` outcome. The model does not say when a suspended sender resumes.
- LedManager.Init: the driver and RTOS creation calls are modelled as always succeeding; the code ignores their results, and the model does not cover their failures. A failed `led_strip_init` (led_manager.c:61) would leave the pixel buffer unallocated. A NULL queue from `xQueueCreate` (led_manager.c:63) would trip FreeRTOS's `configASSERT` on the first receive or send. A failed `xTaskCreate` (led_manager.c:65) would leave the queue without a consumer, so after five sends every `led_set_color`/`led_fade_in` would block for ever. `Init` and `TaskStep` always give a working queue, a working consumer and a painted strip.
- LedStrip.Fill: requires the span to lie inside the strip. The driver refuses a zero or out-of-range length, and that refusal is not modelled; every call in the LED manager fills `[0, strip.length)`.
- LedManager.TaskStep: every `led_strip_fill` and `led_strip_flush` (led_manager.c:33-34,42,44,49,51) is taken to succeed; their error codes are ignored by the code.
- LedManager.Init: `led_strip_init` allocates the pixel buffer inside the driver, which is not part of this model. The model starts the buffer with every pixel off.
- TaskManager.TaskAdd: the new task's handle is a parameter and no scheduler is modelled. When creation fails (`Null`), the slot stays free and `ESP_OK` is still returned, as the code does.
- TaskManager.SampleTask: the worker's slot position comes from `(int)arg`. The model takes it as a slot index below 32, which is what `task_add` passes.
