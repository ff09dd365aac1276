# Sensor and frame recording core of the multisensor data-collection app

The app records accelerometer, gyroscope and magnetometer samples into one CSV
file, optionally alongside a stream of camera frames, for later offline
calibration. This project models the recording core of its single activity,
`MainActivity.kt`, and proves properties of that model.

- `csv.dfy` (module `SensorCsv`): the mapping from platform sensor types to the
  three literal sensor names, the `timestamp,kind,x,y,z` record of one sample,
  the header `Timestamp,Sensor,X,Y,Z`, and a decoder proved to read a session's
  text back as exactly its samples in arrival order.
- `frames.dfy` (module `Frames`): the 32-bit `frameCount` with Kotlin's
  wrap-around and truncating `%`, the save-every-Nth throttle and how many
  frames it saves, the camera image with its close count, and the in-place copy
  of the Y, V and U planes into one NV21 array.
- `activity.dfy` (module `Recording`): class `MainActivity` with the fields
  the activity updates: `imuBuffer`, the CSV text `csv`, the writer state
  (never assigned, open, closed), sensor-listener registration, `isRecording`,
  `isImuOnlyRecording`, `recordingMode`, `frameCount`, and logs of the exports
  and saved frames. Its methods are the sensor callback, the two start/stop
  pairs, the analyzer callback and `processFrame`, the four recording buttons,
  the configuration-change handler and `onDestroy`.

`MainActivity.Valid()` is kept by every handler that completes. It says the
buffer holds at most 500 characters. It also says a registered listener implies an open
writer, and a set flag or a non-empty buffer implies a writer exists. Finally,
while the writer is open, `csv + imuBuffer` equals the file text from before
the start, then the header, then the text that was buffered at the start,
then the records of every accepted sample in arrival order. So no accepted
sample is lost and none is reordered.

Inputs the model takes as parameters: the clock (`now`), the sensor event
(type code and the text of its three float values), the camera image planes,
and the CSV file's content when the activity is created. Stops and
sensor-event deliveries return an `Outcome`. `StreamClosed` is the IOException
a java.io `FileWriter` throws when it is appended to or flushed after `close`.

Behaviour of the code that the model keeps as written:
- `startRecording` never clears `isImuOnlyRecording`.
- The IMU-only start button works even while a session is open. It then opens
  a second writer and appends a second header. Records still in the buffer at
  that moment land in the file after the new header; the ghost field `carried`
  holds them.
- The IMU-only stop button has no guard. Pressed a second time, it calls
  `flush` on the writer it already closed; the model returns `StreamClosed`
  and exports nothing.
- `onDestroy` stops only a camera session.
- The header is appended on every start, and the file is never truncated.
- The platform's sensor type codes (accelerometer 1, magnetic field 2,
  gyroscope 4) come from the platform's `Sensor` class, which is not part of
  this model.

Choices the model takes from the code itself:
- The flush threshold is 500 characters.
- A repeated stop is not a no-op; the IMU-only case above shows when it throws.
- The IMU-only start button is not rejected when a session is already open.
  The camera start button is: it starts only when `isRecording` is false.
- There is no timer-driven triggered capture; frames come only from the
  streamed analyzer.

## Model

| member | source | states |
|---|---|---|
| `SensorCsv.KindOf` | app/src/main/java/com/example/sync_camera_imu_3/MainActivity.kt:281-286 | A sensor type is kept iff it is the accelerometer, gyroscope or magnetic-field type; a kept type maps to the kind whose type code it is |
| `SensorCsv.Name` | app/src/main/java/com/example/sync_camera_imu_3/MainActivity.kt:282-284 | Each literal sensor name is non-empty and holds no comma or line break |
| `SensorCsv.KindOfTypeCode` | app/src/main/java/com/example/sync_camera_imu_3/MainActivity.kt:281-286 | Each kind round-trips through its type code and through its literal name |
| `SensorCsv.LongToString` | app/src/main/java/com/example/sync_camera_imu_3/MainActivity.kt:280-289 | The timestamp is rendered as a non-empty string that starts with a minus sign iff it is negative and otherwise holds only digits, so it has no comma or line break |
| `SensorCsv.ParseLongToString` | app/src/main/java/com/example/sync_camera_imu_3/MainActivity.kt:280-289 | Reading the rendered timestamp back gives the same number |
| `SensorCsv.HeaderColumns` | app/src/main/java/com/example/sync_camera_imu_3/MainActivity.kt:125 | The header line written on every start (also at line 152) splits at its commas into the five titles Timestamp, Sensor, X, Y, Z |
| `SensorCsv.HeaderIsOneLine` | app/src/main/java/com/example/sync_camera_imu_3/MainActivity.kt:152 | The header text is exactly one line followed by its line break |
| `SensorCsv.Line` | app/src/main/java/com/example/sync_camera_imu_3/MainActivity.kt:288-289 | The record text of a sample with clean values holds no line break and splits at its commas into exactly the rendered timestamp, the sensor name and the three values |
| `SensorCsv.Record` | app/src/main/java/com/example/sync_camera_imu_3/MainActivity.kt:288-289 | The appended record of a clean sample is exactly one line followed by its line break |
| `SensorCsv.SplitJoin` | app/src/main/java/com/example/sync_camera_imu_3/MainActivity.kt:288-289 | Fields free of the separator, joined by it and split again, are recovered exactly |
| `SensorCsv.RecordRoundTrip` | app/src/main/java/com/example/sync_camera_imu_3/MainActivity.kt:288-289 | The record of a sample whose values hold no comma or line break is a single line that parses back to that sample |
| `SensorCsv.RecordsAppend` | app/src/main/java/com/example/sync_camera_imu_3/MainActivity.kt:288-290 | Appending one sample's record extends the text of all records in arrival order |
| `SensorCsv.DecodeRoundTrip` | app/src/main/java/com/example/sync_camera_imu_3/MainActivity.kt:124-125 | The header followed by the records of clean samples reads back as exactly those samples, in order |
| `Frames.Increment` | app/src/main/java/com/example/sync_camera_imu_3/MainActivity.kt:244 | `frameCount++` gives the one 32-bit value congruent to the old value plus one modulo 2^32; below the maximum that is the old value plus one |
| `Frames.Rem` | app/src/main/java/com/example/sync_camera_imu_3/MainActivity.kt:247 | Kotlin's `%`: dividend = truncated quotient times divisor plus remainder, with the remainder smaller than the divisor and signed like the dividend |
| `Frames.Saves` | app/src/main/java/com/example/sync_camera_imu_3/MainActivity.kt:247 | The throttle test on Kotlin's remainder passes exactly when the interval divides the counter, negative counters included |
| `Frames.EveryFrameSaved` | app/src/main/java/com/example/sync_camera_imu_3/MainActivity.kt:59 | With FRAME_SAVE_INTERVAL = 1 every processed frame is saved, for any counter value, wrapped or not |
| `Frames.SaveDecisionsBelowWrap` | app/src/main/java/com/example/sync_camera_imu_3/MainActivity.kt:244-247 | From a non-negative counter and below the wrap-around, frame k is saved iff the counter it reaches is a multiple of the interval, and the number saved is the count of multiples crossed |
| `Frames.SavedAfterReset` | app/src/main/java/com/example/sync_camera_imu_3/MainActivity.kt:244-247 | After a reset, among n processed frames exactly the numbers divisible by the interval are saved, n / interval of them |
| `Frames.TenFramesAtIntervalThree` | app/src/main/java/com/example/sync_camera_imu_3/MainActivity.kt:244-247 | With interval 3, of ten frames exactly frames 3, 6 and 9 are saved |
| `Frames.Image.Close` | app/src/main/java/com/example/sync_camera_imu_3/MainActivity.kt:224 | Closing an image raises its close count by one |
| `Frames.RepackNv21` | app/src/main/java/com/example/sync_camera_imu_3/MainActivity.kt:259-267 | The array has ySize + uSize + vSize bytes: the Y plane at [0, ySize), the V plane at [ySize, ySize + vSize), the U plane after it |
| `Frames.Nv21Layout` | app/src/main/java/com/example/sync_camera_imu_3/MainActivity.kt:263-267 | That layout is the sequence Y ++ V ++ U, and each slice of it is its plane |
| `Recording.Accept` | app/src/main/java/com/example/sync_camera_imu_3/MainActivity.kt:276-289 | An event yields a sample iff it is non-null, a recording flag is set and its type is one of the three; the sample carries the arrival time, the matching kind and the event's three values |
| `Recording.ExtendSession` | app/src/main/java/com/example/sync_camera_imu_3/MainActivity.kt:288-295 | Appending a record to the buffer, or flushing the buffer with it, keeps file plus buffer equal to the session text extended by that sample |
| `Recording.ReadBackFromEmpty` | app/src/main/java/com/example/sync_camera_imu_3/MainActivity.kt:124-125 | A session started on an empty file with an empty buffer reads back as exactly its accepted samples |
| `Recording.MainActivity.constructor` | app/src/main/java/com/example/sync_camera_imu_3/MainActivity.kt:45-70 | A new activity has an empty buffer, no writer, no listener, both flags false, mode NONE, frame count 0, and the file as it already was |
| `Recording.MainActivity.OpenSession` | app/src/main/java/com/example/sync_camera_imu_3/MainActivity.kt:123-128 | A start resets the frame count, opens the writer in append mode, appends the header to the existing text, registers the listener and leaves the buffer alone |
| `Recording.MainActivity.CloseSession` | app/src/main/java/com/example/sync_camera_imu_3/MainActivity.kt:135-143 | With no writer nothing is written; with an open writer the buffer is flushed, the writer closed and the whole file exported, which then holds every accepted sample; with a closed writer the stop throws and nothing changes |
| `Recording.MainActivity.StartRecordingImu` | app/src/main/java/com/example/sync_camera_imu_3/MainActivity.kt:120-130 | Sets the IMU-only flag, clears the camera flag, and opens a session; it has no re-entry guard |
| `Recording.MainActivity.StopRecordingImu` | app/src/main/java/com/example/sync_camera_imu_3/MainActivity.kt:132-145 | Clears the IMU-only flag and closes the session, exporting `sensor_data_calibration.csv`; a session from an empty file reads back as its samples |
| `Recording.MainActivity.StartRecording` | app/src/main/java/com/example/sync_camera_imu_3/MainActivity.kt:147-159 | Sets the camera flag, leaves the IMU-only flag as it was, and opens a session |
| `Recording.MainActivity.StopRecording` | app/src/main/java/com/example/sync_camera_imu_3/MainActivity.kt:161-176 | Clears the camera flag and closes the session, exporting `sensor_data.csv`; a session from an empty file reads back as its samples |
| `Recording.MainActivity.BufferRecord` | app/src/main/java/com/example/sync_camera_imu_3/MainActivity.kt:288-295 | The record is appended; the whole buffer moves to the file and the buffer empties exactly when it exceeds 500 characters; the invariant holds afterwards unless that write hits a closed writer |
| `Recording.MainActivity.OnSensorChanged` | app/src/main/java/com/example/sync_camera_imu_3/MainActivity.kt:275-296 | A dropped event changes nothing. An accepted one is buffered and flushed as above, and nothing else changes. While the listener is registered it never throws, and the buffer stays at most 500 characters |
| `Recording.MainActivity.ProcessFrame` | app/src/main/java/com/example/sync_camera_imu_3/MainActivity.kt:242-252 | The counter is incremented with wrap-around; a frame holding its Y, V, U bytes is logged iff the new counter passes the throttle; nothing else changes, so the invariant and the session record survive a frame |
| `Recording.MainActivity.OnImage` | app/src/main/java/com/example/sync_camera_imu_3/MainActivity.kt:220-225 | A frame is counted and possibly saved only while the camera flag is set, and the image is closed exactly once either way; no other field changes |
| `Recording.MainActivity.OnStartClick` | app/src/main/java/com/example/sync_camera_imu_3/MainActivity.kt:94-97 | Sets mode IMU_CAMERA; starts a camera session only when not already recording, otherwise changes nothing else |
| `Recording.MainActivity.OnStopClick` | app/src/main/java/com/example/sync_camera_imu_3/MainActivity.kt:99-102 | Sets mode NONE; stops only when recording, otherwise changes nothing else |
| `Recording.MainActivity.OnImuStartClick` | app/src/main/java/com/example/sync_camera_imu_3/MainActivity.kt:104-107 | Sets mode IMU_ONLY and always starts an IMU-only session |
| `Recording.MainActivity.OnImuStopClick` | app/src/main/java/com/example/sync_camera_imu_3/MainActivity.kt:109-112 | Sets mode NONE and always stops the IMU-only session |
| `Recording.MainActivity.OnConfigurationChanged` | app/src/main/java/com/example/sync_camera_imu_3/MainActivity.kt:300-330 | In IMU_ONLY and NONE nothing changes; in IMU_CAMERA exactly the effects of `stopRecording` |
| `Recording.MainActivity.OnDestroy` | app/src/main/java/com/example/sync_camera_imu_3/MainActivity.kt:332-335 | Stops the camera session when `isRecording` is set, and otherwise changes nothing |
| `Recording.CameraSessionWithFrame` | app/src/main/java/com/example/sync_camera_imu_3/MainActivity.kt:94-102 | On an empty file, the start button, one event of a known type, one camera frame and the stop button export `sensor_data.csv` reading back as exactly that event's sample |

## Left out

- Camera setup and binding (the preview, the 640x480 analysis use case, and the Camera2 focus, exposure and ISO options): these are platform library calls.
- JPEG compression with `YuvImage.compressToJpeg`: an opaque library encoder. A saved frame is logged with the NV21 bytes handed to it.
- MediaStore export: modelled as logging a (name, content) pair. Its own failures are caught in the source and have no effect on the recording state.
- The files of saved frames, their directories and names: a saved frame is an entry in a log.
- The single-shot capture button: it replaces the streamed analyzer with one that saves each frame it receives as a single shot, and 300 ms later it removes the analyzer altogether. From then on no frame is counted or saved, even in a camera session. The model keeps the streamed analyzer installed for good, because the button's effect depends on a timer.
- Permission requests, Toasts, logging, and `finish()`/`startActivity`: after a configuration change in camera mode, the relaunched activity is not modelled.
- The analysis executor runs the analyzer on its own thread, so `isRecording` and `frameCount` are shared between threads. The model runs every handler to completion, one at a time.
- Float formatting of sensor values: each value is taken as the text the platform renders. The read-back results assume that text has no comma or line break.
- The clock: `System.currentTimeMillis()` is a parameter and is not bounded to 64 bits.
- Per-sensor listener registration on a device lacking one of the three sensors: `listening` is one flag for all three.
- The FileWriter's own character buffer: appends reach the file text at once. So when a re-entrant start replaces a writer without closing it, the text that writer had not yet flushed is not lost in the model.
- I/O failures when opening or writing the CSV file.
- The ByteBuffer positions that the plane copy advances, and the pixel and row strides of the planes.
- `Recording.MainActivity.OnSensorChanged`: it promises to keep `Valid()` only when it completes. An event delivered to an unregistered listener while a flag is still set can throw at the flush, and the app then crashes.
