/** `MediaDevices` of src/utils/MediaDevices/mediaDevices.ts: a cache of the
    camera/microphone stream and of the screen-share stream, with
    id-filtered enable/stop over their tracks. `navigator.mediaDevices` is
    not modelled: its answer to an acquisition is a parameter. */
module MediaDevices {
  import opened Wrappers
  import CustomEvent

  type TrackId = string

  datatype Track = Track(id: TrackId, enabled: bool, stopped: bool)

  datatype Stream = Stream(tracks: seq<Track>)

  datatype Devices = Devices(
    localStream: Option<Stream>,
    displayStream: Option<Stream>,
    userEvents: Option<CustomEvent.Emitter>,
    displayEvents: Option<CustomEvent.Emitter>)

  /** What an acquisition returns, and the device state afterwards. */
  datatype Acquired = Acquired(result: Result<Stream>, devices: Devices)

  /** The outcome of `close()`: the device state afterwards, the streams it
      stopped, and the exception it threw, if any. */
  datatype Closed = Closed(devices: Devices, stoppedUser: Option<Stream>, stoppedDisplay: Option<Stream>, thrown: Option<string>)

  const UndefinedTarget := "TypeError: Cannot read properties of undefined"

  function Initial(): Devices {
    Devices(None, None, None, None)
  }

  /** `getUserMedia()`: the cached stream if one is held, otherwise the
      browser's answer `acquire`, which is then cached with a fresh event
      target. */
  function GetUserMedia(d: Devices, acquire: Result<Stream>): (r: Acquired)
    ensures d.localStream.Some? ==> r == Acquired(Ok(d.localStream.value), d)
    ensures d.localStream.None? && acquire.Thrown? ==> r == Acquired(acquire, d)
    ensures d.localStream.None? && acquire.Ok? ==>
      && r.result == acquire
      && r.devices.localStream == Some(acquire.value)
      && r.devices.userEvents == Some(CustomEvent.New())
      && r.devices.displayStream == d.displayStream
      && r.devices.displayEvents == d.displayEvents
  {
    if d.localStream.Some? then Acquired(Ok(d.localStream.value), d)
    else if acquire.Thrown? then Acquired(acquire, d)
    else Acquired(acquire, d.(localStream := Some(acquire.value), userEvents := Some(CustomEvent.New())))
  }

  /** `getDisplayMedia()`: as `getUserMedia`, for the screen-share stream. */
  function GetDisplayMedia(d: Devices, acquire: Result<Stream>): (r: Acquired)
    ensures d.displayStream.Some? ==> r == Acquired(Ok(d.displayStream.value), d)
    ensures d.displayStream.None? && acquire.Thrown? ==> r == Acquired(acquire, d)
    ensures d.displayStream.None? && acquire.Ok? ==>
      && r.result == acquire
      && r.devices.displayStream == Some(acquire.value)
      && r.devices.displayEvents == Some(CustomEvent.New())
      && r.devices.localStream == d.localStream
      && r.devices.userEvents == d.userEvents
  {
    if d.displayStream.Some? then Acquired(Ok(d.displayStream.value), d)
    else if acquire.Thrown? then Acquired(acquire, d)
    else Acquired(acquire, d.(displayStream := Some(acquire.value), displayEvents := Some(CustomEvent.New())))
  }

  /** `if (id && track.id !== id) continue`: a missing or empty id (both
      falsy) selects every track. */
  predicate Selected(t: Track, id: Option<TrackId>) {
    id.None? || id.value == "" || t.id == id.value
  }

  function SetEnabled(tracks: seq<Track>, id: Option<TrackId>): (r: seq<Track>)
    ensures |r| == |tracks|
    ensures forall i :: 0 <= i < |tracks| && Selected(tracks[i], id) ==>
      r[i] == tracks[i].(enabled := true)
    ensures forall i :: 0 <= i < |tracks| && !Selected(tracks[i], id) ==> r[i] == tracks[i]
  {
    seq(|tracks|, i requires 0 <= i < |tracks| =>
      if Selected(tracks[i], id) then tracks[i].(enabled := true) else tracks[i])
  }

  function StopAndDisable(tracks: seq<Track>, id: Option<TrackId>): (r: seq<Track>)
    ensures |r| == |tracks|
    ensures forall i :: 0 <= i < |tracks| && Selected(tracks[i], id) ==>
      r[i] == tracks[i].(enabled := false, stopped := true)
    ensures forall i :: 0 <= i < |tracks| && !Selected(tracks[i], id) ==> r[i] == tracks[i]
  {
    seq(|tracks|, i requires 0 <= i < |tracks| =>
      if Selected(tracks[i], id) then tracks[i].(enabled := false, stopped := true) else tracks[i])
  }

  /** `startUserMediaStreamTrack(id?)`. */
  function StartUserTrack(d: Devices, id: Option<TrackId>): (r: Devices)
    ensures d.localStream.None? ==> r == d
    ensures d.localStream.Some? ==> r == d.(localStream := Some(Stream(SetEnabled(d.localStream.value.tracks, id))))
  {
    if d.localStream.None? then d
    else d.(localStream := Some(Stream(SetEnabled(d.localStream.value.tracks, id))))
  }

  /** `stopUserMediaStreamTrack(id?)`. */
  function StopUserTrack(d: Devices, id: Option<TrackId>): (r: Devices)
    ensures d.localStream.None? ==> r == d
    ensures d.localStream.Some? ==> r == d.(localStream := Some(Stream(StopAndDisable(d.localStream.value.tracks, id))))
  {
    if d.localStream.None? then d
    else d.(localStream := Some(Stream(StopAndDisable(d.localStream.value.tracks, id))))
  }

  /** `startDisplayMediaStreamTrack(id?)`. */
  function StartDisplayTrack(d: Devices, id: Option<TrackId>): (r: Devices)
    ensures d.displayStream.None? ==> r == d
    ensures d.displayStream.Some? ==> r == d.(displayStream := Some(Stream(SetEnabled(d.displayStream.value.tracks, id))))
  {
    if d.displayStream.None? then d
    else d.(displayStream := Some(Stream(SetEnabled(d.displayStream.value.tracks, id))))
  }

  /** `stopDisplayMediaStreamTrack(id?)`. */
  function StopDisplayTrack(d: Devices, id: Option<TrackId>): (r: Devices)
    ensures d.displayStream.None? ==> r == d
    ensures d.displayStream.Some? ==> r == d.(displayStream := Some(Stream(StopAndDisable(d.displayStream.value.tracks, id))))
  {
    if d.displayStream.None? then d
    else d.(displayStream := Some(Stream(StopAndDisable(d.displayStream.value.tracks, id))))
  }

  /** Starting a track undoes the `enabled` half of stopping it, but a stopped
      track stays stopped: `start` never clears `stopped`. */
  lemma StartAfterStopKeepsStopped(tracks: seq<Track>, id: Option<TrackId>)
    ensures forall i :: 0 <= i < |tracks| ==>
      var t := SetEnabled(StopAndDisable(tracks, id), id)[i];
      t.id == tracks[i].id && t.enabled == (Selected(tracks[i], id) || tracks[i].enabled)
      && t.stopped == (Selected(tracks[i], id) || tracks[i].stopped)
  {
  }

  /** `displayStream_on(eventName, callback)`: throws when no display stream
      was ever acquired (the event target is still undefined) and when the
      target is closed; otherwise `callback` is registered under
      `eventName` on the display target, and nothing else changes. */
  function DisplayStreamOn(d: Devices, e: CustomEvent.EventName, cb: CustomEvent.Callback): (r: Result<Devices>)
    ensures d.displayEvents.None? ==> r == Thrown(UndefinedTarget)
    ensures d.displayEvents.Some? ==> (r.Ok? <==> d.displayEvents.value.target.Some?)
    ensures r.Ok? ==> r.value == d.(displayEvents := Some(CustomEvent.On(d.displayEvents.value, e, cb).value))
    ensures r.Ok? ==> && r.value.displayEvents.Some?
                      && e in r.value.displayEvents.value.eventMap
                      && cb in r.value.displayEvents.value.eventMap[e]
                      && (e, cb) in r.value.displayEvents.value.target.value
  {
    if d.displayEvents.None? then Thrown(UndefinedTarget)
    else
      var on := CustomEvent.On(d.displayEvents.value, e, cb);
      if on.Thrown? then Thrown(on.message) else Ok(d.(displayEvents := Some(on.value)))
  }

  /** `displayStream_off(eventName, callback?)`: the same delegation to
      `off` on the display target. */
  function DisplayStreamOff(d: Devices, e: CustomEvent.EventName, cb: Option<CustomEvent.Callback>): (r: Result<Devices>)
    ensures d.displayEvents.None? ==> r == Thrown(UndefinedTarget)
    ensures d.displayEvents.Some? ==> (r.Ok? <==> d.displayEvents.value.target.Some?)
    ensures r.Ok? ==> r.value == d.(displayEvents := Some(CustomEvent.Off(d.displayEvents.value, e, cb).value))
    ensures r.Ok? && cb.Some? ==> (e, cb.value) !in r.value.displayEvents.value.target.value
  {
    if d.displayEvents.None? then Thrown(UndefinedTarget)
    else
      var off := CustomEvent.Off(d.displayEvents.value, e, cb);
      if off.Thrown? then Thrown(off.message) else Ok(d.(displayEvents := Some(off.value)))
  }

  /** Binding a new callback and unbinding it again gives the devices back,
      when the event already had a set of callbacks; for a new event an
      empty set is left behind under its name. */
  lemma DisplayStreamOffUndoesOn(d: Devices, e: CustomEvent.EventName, cb: CustomEvent.Callback)
    requires d.displayEvents.Some? && CustomEvent.InStep(d.displayEvents.value)
    requires e in d.displayEvents.value.eventMap ==> cb !in d.displayEvents.value.eventMap[e]
    ensures DisplayStreamOn(d, e, cb).Ok?
    ensures e in d.displayEvents.value.eventMap ==>
      DisplayStreamOff(DisplayStreamOn(d, e, cb).value, e, Some(cb)) == Ok(d)
    ensures e !in d.displayEvents.value.eventMap ==>
      var em := d.displayEvents.value;
      DisplayStreamOff(DisplayStreamOn(d, e, cb).value, e, Some(cb))
        == Ok(d.(displayEvents := Some(em.(eventMap := em.eventMap[e := {}]))))
  {
    var em := d.displayEvents.value;
    if e in em.eventMap {
      CustomEvent.OffUndoesOn(em, e, cb);
    } else {
      var back := CustomEvent.Off(CustomEvent.On(em, e, cb).value, e, Some(cb)).value;
      assert (e, cb) !in em.target.value;
      assert back.target.value == em.target.value;
      assert back.eventMap == em.eventMap[e := {}];
    }
  }

  /** Closes an event target that may be undefined (`target?.close()`). */
  function CloseEvents(em: Option<CustomEvent.Emitter>): (r: Result<Option<CustomEvent.Emitter>>)
    ensures em.None? ==> r == Ok(None)
    ensures em.Some? && em.value.target.Some? ==> r.Ok? && r.value.Some?
    ensures r.Ok? && r.value.Some? ==> r.value.value.target.None?
    ensures em.Some? && em.value.target.None? && |em.value.eventMap| > 0 ==> r.Thrown?
    ensures em.Some? && r.Ok? ==> r.value.Some?
    ensures em.Some? && em.value.target.Some? ==>
      && r.value.value.eventMap.Keys == em.value.eventMap.Keys
      && forall k :: k in r.value.value.eventMap ==> r.value.value.eventMap[k] == {}
  {
    if em.None? then Ok(None)
    else
      var c := CustomEvent.Close(em.value);
      if c.Thrown? then Thrown(c.message) else Ok(Some(c.value))
  }

  /** Every track of both streams stopped and disabled. */
  function StopAll(d: Devices): Devices {
    StopDisplayTrack(StopUserTrack(d, None), None)
  }

  /** `close()` as written: stops every track of both streams, closes both
      event targets, then drops both cached streams. The stops are begun
      before the event targets are closed, so they happen even when closing
      a target throws; the caches are dropped only when nothing threw. The
      event targets themselves are kept, with a null target. */
  function CloseAsWritten(d: Devices): (r: Closed)
    ensures r.stoppedUser == StopAll(d).localStream && r.stoppedDisplay == StopAll(d).displayStream
    ensures r.thrown.None? ==> r.devices.localStream.None? && r.devices.displayStream.None?
    ensures (forall em :: em in [d.userEvents, d.displayEvents] && em.Some? ==> em.value.target.Some?) ==> r.thrown.None?
    ensures r.thrown.None? ==>
      && (r.devices.userEvents.Some? <==> d.userEvents.Some?)
      && (r.devices.displayEvents.Some? <==> d.displayEvents.Some?)
      && (r.devices.userEvents.Some? ==> r.devices.userEvents.value.target.None?)
      && (r.devices.displayEvents.Some? ==> r.devices.displayEvents.value.target.None?)
    ensures d.displayEvents.Some? && d.displayEvents.value.target.Some? && r.thrown.None? ==>
      r.devices.displayEvents.value.eventMap.Keys == d.displayEvents.value.eventMap.Keys
  {
    var stopped := StopAll(d);
    var user := CloseEvents(d.userEvents);
    if user.Thrown? then
      Closed(stopped, stopped.localStream, stopped.displayStream, Some(user.message))
    else
      var display := CloseEvents(d.displayEvents);
      if display.Thrown? then
        Closed(stopped.(userEvents := user.value), stopped.localStream, stopped.displayStream, Some(display.message))
      else
        Closed(Devices(None, None, user.value, display.value), stopped.localStream, stopped.displayStream, None)
  }

  /** Closing twice throws once a listener was ever bound on the display
      stream (as `RTCClient.shareDisplayMedia` does): the first `close` leaves
      the display event target with a null target and a non-empty map, and
      the second `close` calls `offAll` on it. */
  lemma CloseTwiceThrows(d: Devices)
    requires d.displayEvents.Some? && d.displayEvents.value.target.Some? && |d.displayEvents.value.eventMap| > 0
    requires d.userEvents.None? || d.userEvents.value.target.Some?
    ensures CloseAsWritten(d).thrown.None?
    ensures CloseAsWritten(CloseAsWritten(d).devices).thrown.Some?
  {
    var once := CloseAsWritten(d).devices;
    assert once.displayEvents.value.eventMap.Keys == d.displayEvents.value.eventMap.Keys;
    assert |once.displayEvents.value.eventMap.Keys| > 0;
  }

  /** `close()` corrected: as written, and the event targets are released
      (set to `null`) once closed, so a second `close` finds nothing to do. */
  function Close(d: Devices): (r: Closed)
    ensures r.stoppedUser == StopAll(d).localStream && r.stoppedDisplay == StopAll(d).displayStream
    ensures r.thrown.None? ==> r.devices == Initial()
    ensures (forall em :: em in [d.userEvents, d.displayEvents] && em.Some? ==> em.value.target.Some?) ==> r.thrown.None?
  {
    var closed := CloseAsWritten(d);
    if closed.thrown.Some? then closed else closed.(devices := Initial())
  }

  /** The corrected `close` is idempotent: a second call changes nothing,
      stops nothing and throws nothing. */
  lemma CloseIsIdempotent(d: Devices)
    requires Close(d).thrown.None?
    ensures Close(Close(d).devices) == Closed(Initial(), None, None, None)
  {
  }

  /** After a clean `close`, the next `getUserMedia` / `getDisplayMedia`
      acquires afresh instead of answering from the cache. */
  lemma GetAfterCloseReacquires(closed: Closed, acquire: Result<Stream>)
    requires closed.thrown.None? && closed.devices.localStream.None? && closed.devices.displayStream.None?
    ensures GetUserMedia(closed.devices, acquire).result == acquire
    ensures GetDisplayMedia(closed.devices, acquire).result == acquire
  {
  }
}
