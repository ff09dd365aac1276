/**
  The recording state of the activity: the sensor-sample buffer that is
  flushed to the CSV writer once it grows past a threshold, the start and stop
  of the two kinds of session, the button, configuration-change and destroy
  handlers, and the analyzer callback that throttles and saves frames.
 */
module Recording {
  import opened SensorCsv
  import opened Frames

  /** The buffer moves to the file once it holds more than this many characters. */
  const FlushThreshold: nat := 500

  /** Names under which the finished CSV text is exported. */
  const CameraExportName: string := "sensor_data.csv"
  const ImuExportName: string := "sensor_data_calibration.csv"

  /** The activity's `RecordingMode`: NONE, IMU_ONLY, IMU_CAMERA. */
  datatype RecordingMode = NoMode | ImuOnly | ImuCamera

  /** The `lateinit` CSV FileWriter: never assigned, open, or closed. */
  datatype WriterState = Uninitialized | Open | Closed

  /** How a handler ends: normally, or with the IOException ("Stream closed")
      that a FileWriter raises when it is appended to or flushed after close. */
  datatype Outcome = Completed | StreamClosed

  /** One CSV export: the display name and the whole file text. */
  datatype Export = Export(name: string, content: string)

  /** One frame written to its own file: the time it was processed and the
      NV21 bytes handed to the JPEG encoder. */
  datatype SavedFrame = SavedFrame(timestamp: int, nv21: seq<byte>)

  /** A sensor event: the platform sensor type and the text of its three values. */
  datatype SensorEvent = SensorEvent(sensorType: int, x: string, y: string, z: string)

  /** String concatenation step behind ExtendSession, kept over plain strings
      so that the record text is not unfolded. */
  lemma AppendBoth(csv: string, buffer: string, start: string, recs: string, rec: string)
    requires csv + buffer == start + recs
    ensures csv + (buffer + rec) == start + (recs + rec)
  {
    assert csv + (buffer + rec) == (csv + buffer) + rec;
  }

  /** Appending one record keeps the file and buffer equal to the session's
      text, whether the record stays in the buffer or the buffer is flushed. */
  lemma ExtendSession(csv: string, buffer: string, start: string, accepted: seq<Sample>, s: Sample)
    requires csv + buffer == start + Records(accepted)
    ensures csv + (buffer + Record(s)) == start + Records(accepted + [s])
  {
    RecordsAppend(accepted, s);
    AppendBoth(csv, buffer, start, Records(accepted), Record(s));
  }

  /** Dropping the two empty parts of a session's text, over plain strings. */
  lemma DropEmpty(base: string, header: string, carried: string, records: string)
    requires base == [] && carried == []
    ensures base + header + carried + records == header + records
  {
  }

  /** A session whose file started empty and had nothing pending reads back
      as exactly its accepted samples. */
  lemma ReadBackFromEmpty(base: string, carried: string, ss: seq<Sample>)
    requires base == [] && carried == []
    requires forall i :: 0 <= i < |ss| ==> CleanSample(ss[i])
    ensures DecodeSession(base + Header + carried + Records(ss)) == Some(ss)
  {
    DropEmpty(base, Header, carried, Records(ss));
    DecodeRoundTrip(ss);
  }

  /** The sample onSensorChanged records for an event that arrives at time
      `now`, or None when it drops the event: a null event, no recording flag
      set, or a sensor type other than the three it knows. */
  function Accept(event: Option<SensorEvent>, recording: bool, now: int): (s: Option<Sample>)
    ensures s.Some? <==> event.Some? && recording && KindOf(event.value.sensorType).Some?
    ensures s.Some? ==> TypeCode(s.value.kind) == event.value.sensorType
    ensures s.Some? ==> s.value.timestamp == now
    ensures s.Some? ==> s.value.x == event.value.x && s.value.y == event.value.y && s.value.z == event.value.z
  {
    if event.None? || !recording then None
    else
      match KindOf(event.value.sensorType)
      case None => None
      case Some(k) => Some(Sample(now, k, event.value.x, event.value.y, event.value.z))
  }

  class MainActivity {
    /** `imuBuffer`, the StringBuilder of records not yet written. */
    var imuBuffer: string
    /** The text of `sensor_data.csv` as written through the writer so far. */
    var csv: string
    var writer: WriterState
    /** Whether the activity is registered as the listener of the sensors. */
    var listening: bool
    var isRecording: bool
    var isImuOnlyRecording: bool
    var recordingMode: RecordingMode
    var frameCount: int32
    /** The exports made so far, oldest first. */
    var exports: seq<Export>
    /** The frames saved so far, oldest first. */
    var frames: seq<SavedFrame>

    /** For the writer opened last: the file text before it was opened, the
        buffered text pending at that moment, and the samples accepted since. */
    ghost var sessionBase: string
    ghost var carried: string
    ghost var accepted: seq<Sample>

    ghost predicate Valid()
      reads this
    {
      && |imuBuffer| <= FlushThreshold
      && (listening ==> writer == Open)
      && (isRecording || isImuOnlyRecording || imuBuffer != [] ==> writer != Uninitialized)
      // nothing accepted is lost, and the order of arrival is kept
      && (writer == Open ==> csv + imuBuffer == sessionBase + Header + carried + Records(accepted))
    }

    /** A fresh activity; `existing` is what sensor_data.csv already holds. */
    constructor (existing: string)
      ensures Valid()
      ensures csv == existing && imuBuffer == [] && writer == Uninitialized && !listening
      ensures !isRecording && !isImuOnlyRecording && recordingMode == NoMode && frameCount == 0
      ensures exports == [] && frames == []
    {
      csv := existing;
      imuBuffer := [];
      writer := Uninitialized;
      listening := false;
      isRecording, isImuOnlyRecording := false, false;
      recordingMode := NoMode;
      frameCount := 0;
      exports, frames := [], [];
      sessionBase, carried, accepted := [], [], [];
    }

    /** Every field except the recording mode is as it was. */
    twostate predicate SameExceptMode()
      reads this
    {
      && imuBuffer == old(imuBuffer) && csv == old(csv) && writer == old(writer)
      && listening == old(listening) && isRecording == old(isRecording)
      && isImuOnlyRecording == old(isImuOnlyRecording) && frameCount == old(frameCount)
      && exports == old(exports) && frames == old(frames)
      && sessionBase == old(sessionBase) && carried == old(carried) && accepted == old(accepted)
    }

    /** What a start does besides its flags: the counter is reset, the file
        is opened for appending (never truncated), the header is appended to
        it, and the listener is registered. The buffer is left alone. */
    twostate predicate OpenedSession()
      reads this
    {
      && writer == Open && listening && frameCount == 0
      && csv == old(csv) + Header && imuBuffer == old(imuBuffer)
      && exports == old(exports) && frames == old(frames)
      && sessionBase == old(csv) && carried == old(imuBuffer) && accepted == []
    }

    /** What a stop does besides its flag, exporting under `name`: the
        listener is removed; with no writer yet nothing is written; with an
        open writer the buffer is flushed, the writer closed and the whole
        file exported, and the file then holds every sample accepted since
        the start; with a closed writer the append of a non-empty buffer, or
        else the flush, throws and nothing changes. */
    twostate predicate ClosedSession(name: string, r: Outcome)
      reads this
    {
      && !listening
      && frameCount == old(frameCount) && frames == old(frames)
      && (old(writer) == Uninitialized ==>
            r == Completed && writer == Uninitialized && csv == old(csv)
            && imuBuffer == old(imuBuffer) && exports == old(exports))
      && (old(writer) == Open ==>
            r == Completed && writer == Closed && imuBuffer == []
            && csv == old(csv) + old(imuBuffer) && exports == old(exports) + [Export(name, csv)]
            && csv == old(sessionBase) + Header + old(carried) + Records(old(accepted)))
      && (old(writer) == Closed ==>
            r == StreamClosed && writer == Closed && csv == old(csv)
            && imuBuffer == old(imuBuffer) && exports == old(exports))
    }

    /** The session opening shared by both starts: reset the frame counter, open
        the writer in append mode, write the header, register the listener. */
    method OpenSession()
      modifies this
      ensures isRecording == old(isRecording) && isImuOnlyRecording == old(isImuOnlyRecording)
      ensures recordingMode == old(recordingMode)
      ensures OpenedSession()
    {
      frameCount := 0;
      writer := Open;
      csv := csv + Header;
      listening := true;
      sessionBase, carried, accepted := old(csv), imuBuffer, [];
    }

    /** The closing shared by both stops: if a writer was ever assigned, write
        out what is buffered, flush and close it, and export the file. */
    method CloseSession(name: string) returns (r: Outcome)
      requires Valid()
      requires !listening
      modifies this
      ensures Valid()
      ensures isRecording == old(isRecording) && isImuOnlyRecording == old(isImuOnlyRecording)
      ensures recordingMode == old(recordingMode)
      ensures ClosedSession(name, r)
    {
      r := Completed;
      if writer != Uninitialized {
        if imuBuffer != [] {
          if writer == Closed {
            return StreamClosed;
          }
          csv := csv + imuBuffer;
          imuBuffer := [];
        }
        if writer == Closed {
          return StreamClosed;
        }
        // flush and close, then export readText() of the file
        writer := Closed;
        exports := exports + [Export(name, csv)];
      }
    }

    method StartRecordingImu()
      requires Valid()
      modifies this
      ensures Valid()
      ensures isImuOnlyRecording && !isRecording && recordingMode == old(recordingMode)
      ensures OpenedSession()
    {
      isImuOnlyRecording := true;
      isRecording := false;
      OpenSession();
    }

    method StopRecordingImu() returns (r: Outcome)
      requires Valid()
      modifies this
      ensures Valid()
      ensures !isImuOnlyRecording && isRecording == old(isRecording)
      ensures recordingMode == old(recordingMode)
      ensures ClosedSession(ImuExportName, r)
      ensures old(writer) == Open && old(sessionBase) == [] && old(carried) == []
              && (forall i :: 0 <= i < |old(accepted)| ==> CleanSample(old(accepted)[i]))
              ==> DecodeSession(csv) == Some(old(accepted))
    {
      isImuOnlyRecording := false;
      listening := false;
      r := CloseSession(ImuExportName);
      if && old(writer) == Open && old(sessionBase) == [] && old(carried) == []
         && (forall i :: 0 <= i < |old(accepted)| ==> CleanSample(old(accepted)[i]))
      {
        ReadBackFromEmpty(old(sessionBase), old(carried), old(accepted));
      }
    }

    method StartRecording()
      requires Valid()
      modifies this
      ensures Valid()
      ensures isRecording && isImuOnlyRecording == old(isImuOnlyRecording)
      ensures recordingMode == old(recordingMode)
      ensures OpenedSession()
    {
      isRecording := true;
      OpenSession();
    }

    method StopRecording() returns (r: Outcome)
      requires Valid()
      modifies this
      ensures Valid()
      ensures !isRecording && isImuOnlyRecording == old(isImuOnlyRecording)
      ensures recordingMode == old(recordingMode)
      ensures ClosedSession(CameraExportName, r)
      ensures old(writer) == Open && old(sessionBase) == [] && old(carried) == []
              && (forall i :: 0 <= i < |old(accepted)| ==> CleanSample(old(accepted)[i]))
              ==> DecodeSession(csv) == Some(old(accepted))
    {
      isRecording := false;
      listening := false;
      r := CloseSession(CameraExportName);
      if && old(writer) == Open && old(sessionBase) == [] && old(carried) == []
         && (forall i :: 0 <= i < |old(accepted)| ==> CleanSample(old(accepted)[i]))
      {
        ReadBackFromEmpty(old(sessionBase), old(carried), old(accepted));
      }
    }

    /** Append the record of an accepted sample, and move the whole buffer to
        the writer once it is longer than the threshold. */
    method BufferRecord(sample: Sample) returns (r: Outcome)
      requires Valid()
      requires isRecording || isImuOnlyRecording
      modifies this`imuBuffer, this`csv, this`accepted
      ensures accepted == old(accepted) + [sample]
      ensures var grown := old(imuBuffer) + Record(sample);
        && (|grown| <= FlushThreshold ==> r == Completed && imuBuffer == grown && csv == old(csv))
        && (|grown| > FlushThreshold && writer == Open ==>
              r == Completed && imuBuffer == [] && csv == old(csv) + grown)
        && (|grown| > FlushThreshold && writer != Open ==>
              r == StreamClosed && imuBuffer == grown && csv == old(csv))
      ensures r == Completed ==> Valid()
    {
      var record := Record(sample);
      var grown := imuBuffer + record;
      if writer == Open {
        ExtendSession(csv, imuBuffer, sessionBase + Header + carried, accepted, sample);
      }
      accepted := accepted + [sample];
      r := Completed;
      if |grown| > FlushThreshold {
        if writer != Open {
          imuBuffer := grown;
          return StreamClosed;
        }
        csv := csv + grown;
        imuBuffer := [];
        assert csv + imuBuffer == csv;
      } else {
        imuBuffer := grown;
      }
    }

    /** The sensor callback. Appending to a writer that is not open throws;
        that needs an event delivered while the listener is not registered. */
    method OnSensorChanged(event: Option<SensorEvent>, now: int) returns (r: Outcome)
      requires Valid()
      modifies this`imuBuffer, this`csv, this`accepted
      ensures var s := Accept(event, isRecording || isImuOnlyRecording, now);
        if s.None? then
          r == Completed && imuBuffer == old(imuBuffer) && csv == old(csv) && accepted == old(accepted)
        else
          var grown := old(imuBuffer) + Record(s.value);
          && accepted == old(accepted) + [s.value]
          && (|grown| <= FlushThreshold ==> r == Completed && imuBuffer == grown && csv == old(csv))
          && (|grown| > FlushThreshold && writer == Open ==>
                r == Completed && imuBuffer == [] && csv == old(csv) + grown)
          && (|grown| > FlushThreshold && writer != Open ==>
                r == StreamClosed && imuBuffer == grown && csv == old(csv))
      ensures listening ==> r == Completed
      ensures r == Completed ==> Valid() && |imuBuffer| <= FlushThreshold
    {
      r := Completed;
      var s := Accept(event, isRecording || isImuOnlyRecording, now);
      if s.Some? {
        r := BufferRecord(s.value);
      }
    }

    /** processFrame: count the frame, and save it when the throttle says so. */
    method ProcessFrame(image: Image, now: int)
      requires Valid()
      modifies this`frameCount, this`frames
      ensures Valid()
      ensures frameCount == Increment(old(frameCount))
      ensures frames == if Saves(frameCount, FrameSaveInterval)
                        then old(frames) + [SavedFrame(now, image.yPlane + image.vPlane + image.uPlane)]
                        else old(frames)
    {
      frameCount := Increment(frameCount);
      if Saves(frameCount, FrameSaveInterval) {
        var nv21 := RepackNv21(image.yPlane, image.uPlane, image.vPlane);
        Nv21Layout(image.yPlane, image.uPlane, image.vPlane, nv21[..]);
        frames := frames + [SavedFrame(now, nv21[..])];
      }
    }

    /** The analyzer callback: a frame is processed only while the camera
        session flag is set, and closed exactly once either way. */
    method OnImage(image: Image, now: int)
      requires Valid()
      modifies this`frameCount, this`frames, image`closeCount
      ensures Valid()
      ensures image.closeCount == old(image.closeCount) + 1
      ensures frameCount == if isRecording then Increment(old(frameCount)) else old(frameCount)
      ensures frames == if isRecording && Saves(frameCount, FrameSaveInterval)
                        then old(frames) + [SavedFrame(now, image.yPlane + image.vPlane + image.uPlane)]
                        else old(frames)
    {
      if isRecording {
        ProcessFrame(image, now);
      }
      image.Close();
    }

    /** The camera-start button: starts only when not already recording. */
    method OnStartClick()
      requires Valid()
      modifies this
      ensures Valid()
      ensures recordingMode == ImuCamera
      ensures old(isRecording) ==> SameExceptMode()
      ensures !old(isRecording) ==>
        isRecording && isImuOnlyRecording == old(isImuOnlyRecording) && OpenedSession()
    {
      recordingMode := ImuCamera;
      if !isRecording {
        StartRecording();
      }
    }

    /** The camera-stop button: stops only when recording. */
    method OnStopClick() returns (r: Outcome)
      requires Valid()
      modifies this
      ensures Valid()
      ensures recordingMode == NoMode
      ensures !old(isRecording) ==> r == Completed && SameExceptMode()
      ensures old(isRecording) ==>
        !isRecording && isImuOnlyRecording == old(isImuOnlyRecording) && ClosedSession(CameraExportName, r)
    {
      recordingMode := NoMode;
      r := Completed;
      if isRecording {
        r := StopRecording();
      }
    }

    /** The IMU-only start button: starts unconditionally, even when a session
        is already open (the earlier writer is then simply replaced). */
    method OnImuStartClick()
      requires Valid()
      modifies this
      ensures Valid()
      ensures recordingMode == ImuOnly
      ensures isImuOnlyRecording && !isRecording && OpenedSession()
    {
      recordingMode := ImuOnly;
      StartRecordingImu();
    }

    /** The IMU-only stop button: stops unconditionally. */
    method OnImuStopClick() returns (r: Outcome)
      requires Valid()
      modifies this
      ensures Valid()
      ensures recordingMode == NoMode
      ensures !isImuOnlyRecording && isRecording == old(isRecording)
      ensures ClosedSession(ImuExportName, r)
    {
      recordingMode := NoMode;
      r := StopRecordingImu();
    }

    /** A configuration change: ignored in IMU-only mode and with no mode; in
        camera mode the camera session is stopped (the activity is then
        finished and relaunched). */
    method OnConfigurationChanged() returns (r: Outcome)
      requires Valid()
      modifies this
      ensures Valid()
      ensures old(recordingMode) != ImuCamera ==> r == Completed && unchanged(this)
      ensures recordingMode == old(recordingMode)
      ensures old(recordingMode) == ImuCamera ==>
        !isRecording && isImuOnlyRecording == old(isImuOnlyRecording) && ClosedSession(CameraExportName, r)
    {
      r := Completed;
      match recordingMode
      case ImuOnly =>
      case ImuCamera =>
        r := StopRecording();
      case NoMode =>
    }

    /** Teardown stops the camera session only; an IMU-only session is left as it is. */
    method OnDestroy() returns (r: Outcome)
      requires Valid()
      modifies this
      ensures Valid()
      ensures !old(isRecording) ==> r == Completed && unchanged(this)
      ensures recordingMode == old(recordingMode)
      ensures old(isRecording) ==>
        !isRecording && isImuOnlyRecording == old(isImuOnlyRecording) && ClosedSession(CameraExportName, r)
    {
      r := Completed;
      if isRecording {
        r := StopRecording();
      }
    }
  }

  /** A camera session on an empty file: the start button, one sensor event of
      a known type, one camera frame, then the stop button. The file exported
      at the stop reads back as exactly the sample of that event. */
  method CameraSessionWithFrame(event: SensorEvent, image: Image, now: int, later: int)
    returns (exported: Export)
    requires KindOf(event.sensorType).Some?
    requires CleanField(event.x) && CleanField(event.y) && CleanField(event.z)
    modifies image
    ensures exported.name == CameraExportName
    ensures DecodeSession(exported.content)
         == Some([Sample(now, KindOf(event.sensorType).value, event.x, event.y, event.z)])
  {
    var a := new MainActivity([]);
    a.OnStartClick();
    var r := a.OnSensorChanged(Some(event), now);
    ghost var s := Accept(Some(event), true, now).value;
    assert a.accepted == [s] && a.sessionBase == [] && a.carried == [];
    a.OnImage(image, later);
    r := a.OnStopClick();
    assert CleanSample(s);
    ReadBackFromEmpty([], [], [s]);
    exported := a.exports[|a.exports| - 1];
  }
}
