# Obstacle-avoidance pipeline for a small quadcopter — a Dafny model

The system flies a quadcopter forward and slows or stops it when a camera-based
classifier sees an obstacle. Two processes share the work:

- **Perception** (`stream.py`) reads the camera's unframed JPEG byte stream.
  It cuts frames out at the SOI/EOI markers (ITU-T T.81, Annex B) and has a
  neural network classify each frame. It keeps a rolling window of the last
  five predictions with a running sum, and sends that sum to the control
  process.
- **Control** (`dyn_control.py` or `control.py`) resets the state estimator,
  ramps up, cruises for a fixed number of steps driven by the received sums,
  then ramps down. `dyn_control.py` sets the forward velocity with an
  exponential low-pass filter. `control.py` hovers when the average is above
  a threshold, and otherwise moves forward at a fixed speed.

The model is functional. Byte chunks, predictions and received messages are
finite input sequences. Sent values and flight-controller commands are output
sequences. Arithmetic is over `real`.

| file | module | models |
|---|---|---|
| `optional.dfy` | `Optional` | optional values |
| `frames.dfy` | `Frames` | marker search, one receive-loop step, a run over many chunks |
| `window.dfy` | `RollingWindow` | `InfQueue.enqueue` and a run of enqueues |
| `perception.dfy` | `Perception` | extraction, classification and the window combined |
| `mission.dfy` | `Mission` | commands, reset, takeoff/landing ramps, trace skeleton |
| `dyncontrol.dfy` | `DynControl` | low-pass law and its controller |
| `thresholdcontrol.dfy` | `ThresholdControl` | threshold law and its controller |

The code behaves as follows, which a reader may not expect; the model follows
the code:

- The first value is sent on the **sixth** enqueue, not the fifth. The test is
  `len <= 4` before appending, so the full window of predictions 1–5 is never
  sent (`RollingWindow.FirstSendOnSixth`).
- An end marker with no start marker in the buffer is **kept**, not dropped.
  The stale-data branch needs a start marker after the end marker
  (`Frames.StepWaits`).
- Each received chunk causes at most one action. A chunk holding two frames
  yields only the first one; the second waits for the next chunk. So the
  frames produced depend on how the stream is split into chunks
  (`Frames.TwoFramesInOneChunk`).
- The landing ramp commands altitudes 0, −0.04, …, −0.76, although the comment
  at dyn_control.py:65 reads "land from (0.8 meters)". It does not descend
  from the cruise altitude (`Mission.LandingRamp`).
- The takeoff ramp ends at 0.76, although the comment at dyn_control.py:50
  reads "takeoff (0.8 meters)". The cruise then holds 0.8
  (`Mission.TakeoffRamp`).

A blocking receive on a closed or silent channel is modelled as the message
sequence running out: the controller returns `Starved` with the trace sent so
far.

## Model

| member | source | states |
|---|---|---|
| `Frames.Find` | stream.py:104-105 | returns the first index where the two-byte marker occurs, and -1 exactly when it does not occur |
| `Frames.Scan` | stream.py:104-117 | the buffer is exactly dropped prefix ++ frame ++ kept bytes; the dropped prefix has no SOI; a frame starts with SOI, ends with EOI, has no earlier EOI and is at least 4 bytes; after a drop the kept buffer starts with SOI |
| `Frames.Step` | stream.py:101-117 | old buffer ++ chunk is exactly dropped ++ frame ++ new buffer, with the same guarantees as `Scan` on the dropped prefix and the frame |
| `Frames.StepWaits` | stream.py:109-113 | when SOI or EOI is missing from the buffer, the chunk is only appended: nothing dropped, no frame (an EOI with no SOI is kept) |
| `Frames.StepDropsStalePrefix` | stream.py:109-110 | when an EOI comes before the first SOI, no frame is produced and the new buffer is the suffix from that SOI |
| `Frames.StepCutsFrame` | stream.py:113-117 | with the first SOI at s and the first EOI at e > s, the frame is bytes s..e+1 and the buffer keeps what follows |
| `Frames.TwoFramesInOneChunk` | stream.py:99-117 | a chunk holding two complete frames yields the first frame and leaves the second one buffered |
| `Frames.Extract` | stream.py:99-121 | over any chunk sequence: one piece per chunk; the frames are exactly the frames of the pieces, in order; the bytes consumed are exactly each piece's dropped prefix followed by its frame, in order; the input is exactly the bytes consumed followed by the buffer; every frame is complete; at most one frame per chunk. `Frames.ExtractLast` makes each piece the step on its chunk |
| `Frames.ExtractLast` | stream.py:99-117 | the run over one more chunk is the run over the earlier chunks followed by one step on the buffer they left and that chunk: its result is the last piece, its frame (if any) is appended to the frames, and its buffer is the new buffer |
| `Frames.ExtractDropsNoStart` | stream.py:103-110 | no step of a run over any chunk sequence drops a start marker |
| `RollingWindow.Enqueue` | stream.py:73-81 | sends exactly when the queue already held five predictions; keeps the last five predictions in order; the running sum's difference from the true sum is unchanged; the value sent is the new sum |
| `RollingWindow.Feed` | stream.py:69-81 | after n enqueues from the empty queue: the queue holds the last min(n, 5) predictions in order, its sum is exact, and max(0, n-5) values were sent |
| `RollingWindow.FeedSentAt` | stream.py:78-81 | sent value k (counting from 0) is the sum of predictions k+1 to k+5, the window that ends with the prediction whose enqueue sent it |
| `RollingWindow.FeedSentWindows` | stream.py:78-81 | every sent value, at once: value k is the sum of predictions k+1 to k+5 |
| `RollingWindow.FirstSendOnSixth` | stream.py:74-81 | five enqueues send nothing; the sixth sends the sum of predictions 2 to 6 |
| `RollingWindow.FeedSentInRange` | stream.py:75-81 | predictions in [0, 1] make every sent value lie in [0, 5] |
| `Perception.Perceive` | stream.py:99-170 | running the receive loop (stream.py:99-121) and handing each extracted frame to the callback that classifies it and enqueues the prediction only if it decodes (stream.py:160-170) gives the same result as extracting all frames, classifying them and feeding the window |
| `Perception.PerceiveAtMostOnePerChunk` | stream.py:99-121 | a run over n chunks enqueues at most n predictions |
| `Perception.PerceiveInRange` | stream.py:160-170 | with a classifier bounded by [0, 1], every prediction enqueued lies in [0, 1] |
| `Perception.PerceiveSends` | stream.py:160-170 | at most one prediction per chunk; max(0, n-5) values sent for n predictions, each the sum of five consecutive predictions; with a classifier bounded by [0, 1], each lies in [0, 5] |
| `Mission.WindowLengthIsCapacity` | dyn_control.py:59 | the count the controllers divide each received sum by is the rolling window's capacity (also control.py:47) |
| `Mission.TakeoffRamp` | dyn_control.py:51-53 | 20 altitude-only setpoints, strictly rising from 0 to 0.76 (the same ramp as control.py:40-42) |
| `Mission.LandingRamp` | dyn_control.py:66-68 | 20 altitude-only setpoints, starting at 0 and strictly falling to -0.76 (the same ramp as control.py:58-60) |
| `Mission.FlightShape` | dyn_control.py:45-68 | a mission trace is the reset pair (1, then 0), then the takeoff ramp, then one setpoint per cruise velocity at altitude 0.8 with no lateral motion or yaw, then the landing ramp |
| `Mission.CruiseAt` | dyn_control.py:60 | cruise setpoint k carries velocity k at altitude 0.8, with no lateral motion or yaw (the same setpoint as control.py:50 and control.py:53) |
| `Mission.EmitTakeoff` | control.py:40-42 | the takeoff loop appends exactly the takeoff ramp |
| `Mission.EmitLanding` | control.py:58-60 | the landing loop appends exactly the landing ramp |
| `DynControl.Velocity` | dyn_control.py:34-36 | the new velocity's distance from the target (1-p)·VEL_MAX is the old distance times (1-alpha) |
| `DynControl.VelocityConvex` | dyn_control.py:35 | with alpha, p in [0, 1] and v in [0, VEL_MAX], the result lies between v and the target, so it stays within [0, VEL_MAX] |
| `DynControl.VelocityBlocked` | dyn_control.py:35 | with p = 1 the result is (1-alpha)·v, between 0 and a non-negative v |
| `DynControl.VelocityClear` | dyn_control.py:35 | with p = 0 and v in [0, VEL_MAX], v ≤ result ≤ VEL_MAX |
| `DynControl.Filter` | dyn_control.py:59-61 | the filter yields exactly one velocity per received message |
| `DynControl.FilterStep` | dyn_control.py:59-61 | each filtered velocity is the law applied to the velocity before it (the initial state for the first) and its message divided by 5 |
| `DynControl.FilterStaysInEnvelope` | dyn_control.py:59-61 | received sums in [0, 5] keep every filtered velocity in [0, VEL_MAX] |
| `DynControl.FilterClearPathRises` | dyn_control.py:59-61 | with every sum 0, the velocity never decreases and never exceeds VEL_MAX |
| `DynControl.FilterBlockedDecays` | dyn_control.py:59-61 | with every sum 5, each velocity is (1-alpha) times the previous one and stays non-negative |
| `DynControl.FilterFromRest` | dyn_control.py:41 | starting at 0 with two clear messages, the velocities are 0.34 then 0.391 |
| `DynControl.Controller` | dyn_control.py:39-68 | the mission completes exactly when 251 messages are available and uses exactly 251; the trace is reset, takeoff, 251 filtered-velocity setpoints (filter starting at 0), landing; with fewer messages, the trace stops after the last cruise setpoint |
| `DynControl.CruiseWithinEnvelope` | dyn_control.py:57-61 | received sums in [0, 5] keep every cruise velocity of a completed mission within [0, VEL_MAX] |
| `ThresholdControl.Law` | control.py:47-55 | the velocity is 0 or 0.35; the counter advances exactly when the velocity is 0.35, which happens exactly when m/5 ≤ 0.85 |
| `ThresholdControl.BoundaryAdvances` | control.py:49 | an average of exactly 0.85 moves forward and advances the counter |
| `ThresholdControl.CountsPartition` | control.py:49-54 | every message either advances or hovers |
| `ThresholdControl.CruiseSetpoints` | control.py:49-53 | each cruise setpoint is (0, 0, 0, 0.8) or (0.35, 0, 0, 0.8), and it is the forward one exactly when its message advances |
| `ThresholdControl.CruiseStep` | control.py:46-55 | one more received message moves the forward count to the count over the longer prefix and appends that message's setpoint to the unfinished trace |
| `ThresholdControl.Controller` | control.py:30-60 | completes exactly when at least 251 messages advance; it then stops at the message completing the 251st forward step (a forward one), after consuming 251 + the number of hover messages; the trace is reset, takeoff, one threshold setpoint per consumed message, landing; otherwise the trace stops after the last message |

## Left out

- Sockets, the `recv(512)` chunking and the inter-process channel with its authentication: they become the input chunk sequence and the message sequence. The channel is assumed to deliver every sent value once, in order.
- JPEG decoding and the TensorFlow model call: one classifier oracle `seq<byte> -> Option<real>`. `None` stands for a frame that raises a decode error or gives no image.
- The GTK viewer, window title, frames-per-second display, `GLib.idle_add` and the pixbuf/numpy conversions: display only.
- The flight-controller driver: each parameter set or hover setpoint is one element of a command trace. The `SyncCrazyflie` connection and its success or failure are not modelled.
- `time.sleep` and all timing: the order of commands is modelled, their cadence is not.
- Threads and the two processes running at the same time: the model runs each process on its own finite input.
- IEEE floating-point rounding: all arithmetic is over `real`. So the running sum never drifts, and the 0.85 boundary is exact.
- Argument parsing, logging, the `__main__` bootstrap, and the unused `THRESHOLD` in dyn_control.py.
- RollingWindow.Enqueue: states the window contents only for queues of at most five predictions. Those are the only queues a run from the empty queue reaches.
