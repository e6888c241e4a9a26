# rtc-chatroom core in Dafny

This project models the logic of the rtc-chatroom browser client: a video
chat room built on WebRTC. The model covers the parts that hold state or
compute values, and leaves out the browser calls around them:

- **Connector registry.** `RTCClient` keeps the peer connections ("connectors") of a
  room. Each connector is a user stream, a local screen share or a remote
  screen share. The registry is driven by the signalling handlers
  (`getOffer`, `offer`, `answer`, `icecandidate`, `exit`) and by the local
  commands `shareDisplayMedia` and `close` (`RtcClient`).
- **Media-device cache.** It caches the camera/microphone stream and the
  screen-share stream, and enables or stops tracks filtered by id
  (`MediaDevices`).
- **Listener registry.** `CustomEvent` keeps a map from event names to
  callbacks in step with an event target (`CustomEvent`).
- **FIFO queue** (`Queue`).
- **Rate limiting.** `debounce` and `throttle` are written as state machines
  with an explicit clock and a timer slot (`Debounce`, `Throttle`). `Timers`
  gives the wait `setTimeout` makes of a delay.
- **Text and byte helpers:**
  - data-URL parsing and the byte/binary-string conversions around base 64 (`FileUtils`, `Base64`);
  - file-type icons (`FileTypeImage`);
  - date formatting (`FormatDate`);
  - the CSS colour parser (`ColorUtils`, over the small regular-expression matcher `Patterns`);
  - the message lookup (`Message`);
  - the web-worker dependency line and the worker status machine (`WebWorker`);
  - the file picker's size filter (`SelectFile`).
- **Image editor geometry.** It covers the stroke bounding box, the mosaic
  sampling grid and canvas placement (`EditUtils`), and the crop tool's
  handle picking, handle dragging with mirroring, region moving and crop
  switch (`EditImage`).

A browser call whose outcome matters is a parameter. Examples:
- whether local media and the SDP exchange succeed for a new connector (`RtcClient.Env`);
- the stream `navigator.mediaDevices` hands back;
- the current time given to the debouncer.

Effects on the outside world come back as values. Examples:
- signalling messages sent;
- peer connections closed;
- roster notifications;
- functions run by a debouncer;
- texts shown or warned about.

`crypto.randomUUID()` is a counter, so new connector ids are fresh. Every
asynchronous handler is one atomic step. Shared helpers are `Wrappers`
(`Option`, `Result`) and `Strings`, which covers decimal text, one-character
`split`/`join` and ASCII case mapping.

## Model

| member | source | states |
|---|---|---|
| `Queue.New` | src/utils/queue.ts:4-6 | A new queue is empty. |
| `Queue.Push` | src/utils/queue.ts:8-10 | The element is added at the back. Everything already queued keeps its place. The queue is then not empty. |
| `Queue.Pop` | src/utils/queue.ts:12-17 | An empty queue throws "Queue is empty" and is left unchanged. Otherwise the oldest element comes back, and the rest stays queued in order. |
| `Queue.Peek` | src/utils/queue.ts:19-24 | The queue never changes. It throws "Queue is empty" exactly when it is empty (`empty()`). Otherwise it returns the front element. |
| `Queue.StepIsFifo` | src/utils/queue.ts:8-24 | After any one push, pop or peek, the popped value followed by the queue equals the old queue followed by the pushed value. |
| `Queue.RunIsFifo` | src/utils/queue.ts:8-24 | FIFO for any mix of pushes, pops and peeks. The values popped, then those still queued, are the original contents followed by every pushed value, in order. |
| `Queue.PopsArePrefixOfPushes` | src/utils/queue.ts:12-17 | Starting empty, the popped values are a prefix of the pushed values. |
| `CustomEvent.New` | src/utils/event.ts:6-9 | A new emitter's map is in step with its target. |
| `CustomEvent.On` | src/utils/event.ts:11-18 | `on(e, cb)` registers the pair on the target and adds `cb` to the set of `e`, creating the set if needed. Other events are untouched. It keeps map and target in step. After `close` it throws. |
| `CustomEvent.Off` | src/utils/event.ts:20-31 | `off(e, cb)` removes only that pair. `off(e)` empties the set of `e`. No key is added or removed. Other events are untouched. Map and target stay in step. After `close` it throws. |
| `CustomEvent.OnTwiceIsOnce` | src/utils/event.ts:11-18 | Registering the same pair twice has the effect of registering it once. |
| `CustomEvent.OffUndoesOn` | src/utils/event.ts:20-31 | `off(e, cb)` right after `on(e, cb)` of a new pair gives back the original emitter. |
| `CustomEvent.OffAll` | src/utils/event.ts:33-37 | Every set is emptied, every key is kept, and the target ends with no listeners. On a closed emitter it throws exactly when some key is recorded. |
| `CustomEvent.OffAllByKeys` | src/utils/event.ts:33-37 | Calling `off(key)` key by key, in any order, gives exactly `OffAll`. |
| `CustomEvent.OffAllEmptiesTarget` | src/utils/event.ts:33-37 | Removing every recorded pair leaves the target empty and still in step with the emptied map. |
| `CustomEvent.Close` | src/utils/event.ts:39-42 | `close` empties every set and drops the target. A closed emitter that still has keys throws on a second `close`. |
| `MediaDevices.GetUserMedia` | src/utils/MediaDevices/mediaDevices.ts:17-22 | A cached stream is returned without acquiring again, and nothing changes. Otherwise the browser's stream is cached with a new event target. A refusal changes nothing. The display side is untouched. |
| `MediaDevices.GetDisplayMedia` | src/utils/MediaDevices/mediaDevices.ts:24-29 | The same caching as `GetUserMedia`, for the screen-share stream. |
| `MediaDevices.StartUserTrack` | src/utils/MediaDevices/mediaDevices.ts:101-107 | Does nothing without a stream. Otherwise it enables the tracks the id selects, or every track when the id is missing or empty. |
| `MediaDevices.StopUserTrack` | src/utils/MediaDevices/mediaDevices.ts:110-117 | Does nothing without a stream. Otherwise the selected tracks are stopped and disabled, and the others are unchanged. |
| `MediaDevices.StartDisplayTrack` | src/utils/MediaDevices/mediaDevices.ts:119-125 | As `StartUserTrack`, for the screen-share stream. |
| `MediaDevices.StopDisplayTrack` | src/utils/MediaDevices/mediaDevices.ts:127-134 | As `StopUserTrack`, for the screen-share stream. |
| `MediaDevices.SetEnabled` | src/utils/MediaDevices/mediaDevices.ts:103-106 | Each track the id selects comes out enabled, every other track is unchanged, and the track order is kept. |
| `MediaDevices.StopAndDisable` | src/utils/MediaDevices/mediaDevices.ts:112-116 | Each selected track comes out stopped and disabled, every other track is unchanged, and the track order is kept. |
| `MediaDevices.StartAfterStopKeepsStopped` | src/utils/MediaDevices/mediaDevices.ts:101-134 | Start after stop re-enables the selected tracks, but they stay stopped. Start never clears `stopped`. |
| `MediaDevices.DisplayStreamOn` | src/utils/MediaDevices/mediaDevices.ts:43-45 | Throws when no display stream was ever acquired, and exactly when its target is closed. Otherwise the devices are unchanged except that the display emitter is `on` of the event and callback, so the callback is in the event's set. |
| `MediaDevices.DisplayStreamOff` | src/utils/MediaDevices/mediaDevices.ts:47-49 | The same delegation to `off`: it throws without a display stream or on a closed target. Otherwise only the display emitter changes, and a named callback is no longer bound. |
| `MediaDevices.DisplayStreamOffUndoesOn` | src/utils/MediaDevices/mediaDevices.ts:43-49 | On an open display target, binding a new callback succeeds, and unbinding it gives the devices back. For an event that had no set, an empty set is left under its name. |
| `MediaDevices.CloseEvents` | src/utils/MediaDevices/mediaDevices.ts:140-141 | `target?.close()`: nothing for an undefined target. A live target ends closed, keeping its event names with empty sets. A closed target that still has keys throws. |
| `MediaDevices.CloseAsWritten` | src/utils/MediaDevices/mediaDevices.ts:136-144 | `close()` as written: every track of both streams is stopped. When nothing throws, both caches are dropped and both event targets are kept but closed. A live display target keeps its event names. Live targets never throw. |
| `MediaDevices.CloseTwiceThrows` | src/utils/MediaDevices/mediaDevices.ts:136-144 | Once a display listener was bound, the first `close()` succeeds and a second `close()` throws. |
| `MediaDevices.Close` | src/utils/MediaDevices/mediaDevices.ts:136-144 | The corrected `close()`: the tracks are stopped as written, and a clean close returns the whole state to the initial one. |
| `MediaDevices.CloseIsIdempotent` | src/utils/MediaDevices/mediaDevices.ts:136-144 | A second corrected `close()` stops nothing, throws nothing and changes nothing. |
| `MediaDevices.GetAfterCloseReacquires` | src/utils/MediaDevices/mediaDevices.ts:142-143 | After a clean close, both getters acquire again instead of using the cache. |
| `Debounce.New` | src/utils/util.ts:1-7 | A new debouncer keeps `delay` and `immediate` as given, has no timer and `isInvoke` false, and satisfies the invariant. |
| `Timers.Wait` | src/utils/util.ts:28 | The wait `setTimeout` makes of a delay: the delay itself for 0..2^31-1, always below 2^31. It is 0 for a negative delay down to -2^31 and for 2^31..2^32-1. |
| `Timers.ToInt32` | src/utils/util.ts:28 | The signed 32-bit conversion of a delay lies in -2^31..2^31-1 and leaves 0..2^31-1 unchanged. |
| `Timers.ToInt32Wraps` | src/utils/util.ts:28 | The conversion differs from the delay by a multiple of 2^32. |
| `Timers.WaitWraps` | src/utils/util.ts:28 | A wait that is not 0 is the signed 32-bit conversion of the delay, and so equals the delay modulo 2^32. |
| `Debounce.Tick` | src/utils/util.ts:20-28 | A timer that is due runs `fn` once with its call's arguments at its deadline, settles that call's promise and resets `isInvoke`. Before the deadline nothing happens. |
| `Debounce.Call` | src/utils/util.ts:8-31 | In immediate mode with `isInvoke` false, `fn` runs at once and `isInvoke` is set. In every other case the pending timer is replaced by one for this call, due after the wait `setTimeout` makes of `delay` (`Timers.Wait`). |
| `Debounce.Cancel` | src/utils/util.ts:33-37 | The timer is dropped and `isInvoke` is reset. The settings are kept. |
| `Debounce.ApplyKeepsInv` | src/utils/util.ts:8-37 | Every input keeps the invariant. A non-immediate debouncer never sets `isInvoke`. An immediate one holds a timer only while `isInvoke` is set. |
| `Debounce.RunKeepsInv` | src/utils/util.ts:8-37 | The invariant holds after any sequence of calls, clock ticks and cancels. |
| `Debounce.ImmediateCall` | src/utils/util.ts:10-17 | In immediate mode, a call with `isInvoke` false runs `fn` at once with its own arguments and sets `isInvoke`. With `isInvoke` true and no timer due, it runs nothing and arms a timer. |
| `Debounce.Burst` | src/utils/util.ts:19-28 | In a burst of calls, each before the previous timer is due, `fn` never runs. One timer is left, carrying the last call's arguments and promise. Every earlier promise is dropped. |
| `Debounce.BurstThenQuiet` | src/utils/util.ts:19-28 | After a burst, once the clock reaches the last deadline, `fn` runs exactly once, with the last call's arguments and promise. |
| `Debounce.TimerFiresOnce` | src/utils/util.ts:20-28 | When inputs leave one timer and no run, a tick at or after its deadline runs `fn` once, for that timer's call. |
| `Debounce.CancelSilences` | src/utils/util.ts:33-37 | After `cancel` no timer is left to fire, however long the clock runs. |
| `Throttle.New` | src/utils/util.ts:42-52 | A new throttle has no timer and `lastTime` 0, and keeps `interval`. Without an options object it leads and does not trail. With one, each flag is on exactly when it is given as `true`; a missing flag is undefined, which counts as off. |
| `Throttle.TrailingOnlyHasNoLeading` | src/utils/util.ts:45-50 | `{ trailing: true }` gives a throttle that trails and does not lead, because the default applies only to the whole object. |
| `Throttle.Tick` | src/utils/util.ts:73-82 | A due trailing timer runs `fn` at its deadline. It then sets `lastTime` to that time, or to 0 when leading is off. The settings never change. |
| `Throttle.Call` | src/utils/util.ts:54-85 | `fn` runs now exactly when `interval - (now - lastTime) <= 0`. Then `lastTime` becomes now and the timer is dropped. Otherwise a trailing timer is armed for the rest of the interval only when trailing is on and none is pending. |
| `Throttle.Cancel` | src/utils/util.ts:87-91 | The timer is dropped and `lastTime` is reset to 0. |
| `Throttle.NoTrailingNoTimer` | src/utils/util.ts:72-83 | With trailing off, no timer is ever armed, whatever the inputs. Every run of `fn` is one of the calls, at its own time. |
| `Throttle.RunsAreSpaced` | src/utils/util.ts:56-71 | With trailing off and calls in time order, consecutive runs of `fn` are at least `interval` apart, with leading on or off. |
| `Throttle.CancelResets` | src/utils/util.ts:87-91 | After `cancel`, the next call measures from 0 again, or from its own time when leading is off. No timer fires. |
| `Base64.Encode` | src/utils/fileUtils.ts:34-36 | The padded encoding of RFC 4648 section 4. Its length is a multiple of 4, and it uses only alphabet characters and `=`. |
| `Base64.EncodeUnpadded` | src/utils/fileUtils.ts:34-36 | Only alphabet characters. The length is 0, 2 or 3 modulo 4 as the byte count is 0, 1 or 2 modulo 3. |
| `Base64.Atob` | src/utils/fileUtils.ts:40 | `atob` accepts a text exactly when, after removing whitespace and padding, it is alphabet characters whose count is not 1 modulo 4. Any other text throws `InvalidCharacterError`. The result is a binary string. |
| `Base64.Btoa` | src/utils/fileUtils.ts:34-36 | `btoa` succeeds exactly on binary strings, and `atob` of its result gives the string back. Anything else throws `InvalidCharacterError`. |
| `Base64.StripWhitespace` | src/utils/fileUtils.ts:40 | The result has no ASCII whitespace, and it is the input itself when the input has none. |
| `Base64.StripWhitespaceOne` | src/utils/fileUtils.ts:40 | One character is dropped exactly when it is ASCII whitespace. |
| `Base64.StripWhitespaceAppend` | src/utils/fileUtils.ts:40 | Stripping a concatenation strips each part, so the kept characters stay in order. |
| `Base64.StripWhitespaceCounts` | src/utils/fileUtils.ts:40 | Every other character is kept as often as it occurs, and whitespace not at all. |
| `Base64.AtobIgnoresWhitespace` | src/utils/fileUtils.ts:40 | Inserting a whitespace character anywhere does not change what `atob` gives. |
| `Base64.StripPadding` | src/utils/fileUtils.ts:40 | The result is a prefix. Only `=` characters are removed, at most two, and only from a length that is a multiple of 4. A final `=` there is always removed, and a final `==` both. |
| `Base64.ToBinary` | src/utils/fileUtils.ts:35 | Character `i` has the code of byte `i`. |
| `Base64.FromBinary` | src/utils/fileUtils.ts:44 | The inverse of `ToBinary` on binary strings. |
| `Base64.ValueOfAlphabet` | src/utils/fileUtils.ts:40 | Decoding an alphabet character gives back its 6-bit value. |
| `Base64.GroupRoundTrip` | src/utils/fileUtils.ts:34-40 | The four sextets of a three-byte group rebuild its three bytes. |
| `Base64.DecodeEncodeUnpadded` | src/utils/fileUtils.ts:34-40 | Decoding the unpadded encoding of any bytes gives back the bytes. |
| `Base64.StripPaddingOfEncoding` | src/utils/fileUtils.ts:34-40 | Removing the padding of an encoding leaves exactly the unpadded encoding. |
| `Base64.EncodingHasNoWhitespace` | src/utils/fileUtils.ts:34-40 | An encoding contains no whitespace, so `atob` removes nothing from it. |
| `Base64.DecodeEncode` | src/utils/fileUtils.ts:34-40 | The round trip: `atob` of the encoding of any bytes succeeds with their binary string. |
| `Base64.LengthOneModFourRejected` | src/utils/fileUtils.ts:40 | A text without whitespace whose length is 1 modulo 4 is rejected. |
| `Base64.UndefinedIsRejected` | src/utils/fileUtils.ts:5 | `atob(undefined)` decodes the text "undefined", and that throws. |
| `FileUtils.CaptureFrom` | src/utils/fileUtils.ts:4 | Scanning from a colon finds the match of `/:(.*?);/` there exactly when one exists. |
| `FileUtils.FirstMatchFrom` | src/utils/fileUtils.ts:4 | The leftmost match of `/:(.*?);/`. No earlier position matches, and with no result nothing matches at all. |
| `FileUtils.MatchIsUnique` | src/utils/fileUtils.ts:4 | At a given colon there is at most one match: the lazy capture ends at the first semicolon. |
| `FileUtils.Uint8` | src/utils/fileUtils.ts:9 | Storing a character code below 256 in a `Uint8Array` keeps it. |
| `FileUtils.FillBytes` | src/utils/fileUtils.ts:6-10 | The count-down loop fills every index. Byte `i` is character code `i`, so a binary string comes back unchanged. |
| `FileUtils.CodesOfBinary` | src/utils/fileUtils.ts:8-10 | Bytes holding the codes of a binary string give that string back. |
| `FileUtils.Base64ToFile` | src/utils/fileUtils.ts:1-12 | The name defaults to "file.png". It throws `TypeError` exactly when the header before the first comma has no `:…;`. It succeeds exactly when there is a header match, a second part and that part decodes. The MIME type is then the leftmost capture as the `File` constructor keeps it (`FileUtils.BlobType`), and the bytes are the decoded payload. |
| `FileUtils.BlobType` | src/utils/fileUtils.ts:11 | The type a `File` keeps: empty exactly when the given type is empty or has a character outside U+0020..U+007E, otherwise the type in ASCII lower case. It never holds an upper-case letter. |
| `FileUtils.BlobTypeExamples` | src/utils/fileUtils.ts:11 | "IMAGE/PNG" is stored as "image/png", and "image/png" as it is. |
| `FileUtils.ArrayBufferToBase64` | src/utils/fileUtils.ts:33-37 | The result is the padded encoding of the buffer, and `atob` of it gives back the buffer's binary string. |
| `FileUtils.Base64ToArrayBuffer` | src/utils/fileUtils.ts:39-47 | It succeeds exactly when `atob` does, with byte `i` equal to character code `i`. It throws `InvalidCharacterError` otherwise. Decoding an encoding of `b` yields exactly `b`. |
| `FileUtils.EncodingDeterminesBytes` | src/utils/fileUtils.ts:39-47 | Bytes whose binary string is the decoding of an encoding of `b` are `b`. |
| `FileTypeImage.GetFileType` | src/utils/file-type-image.ts:6-9 | The lower-cased longest dot-free suffix of the name. It is preceded by a dot unless it is the whole name. |
| `FileTypeImage.IconFor` | src/utils/file-type-image.ts:17-37 | One of the six icons. Each icon is chosen exactly for the extensions listed for it, and every other extension gets `txt.png`. |
| `FileTypeImage.GetFileImageName` | src/utils/file-type-image.ts:15-38 | The icon is always one of the six. Each is chosen exactly for its extensions of the name. |
| `FileTypeImage.CaseInsensitive` | src/utils/file-type-image.ts:8 | Names that are equal once lower-cased get the same extension and the same icon. |
| `FileTypeImage.ExtensionAfterLastDot` | src/utils/file-type-image.ts:7-8 | The extension of `base.ext` is the lower-cased `ext`, whatever dots `base` holds. |
| `FileTypeImage.UpperCaseWord` | src/utils/file-type-image.ts:18-20 | A name ending in ".DOCX" gets the Word icon. |
| `FileTypeImage.LastDotWins` | src/utils/file-type-image.ts:21-23 | A name ending in ".tar.RAR" gets the archive icon. |
| `FormatDate.GetDateInfo` | src/utils/formatDate.ts:35-58 | The month field is `getMonth() + 1`, so it lies in 1..12. The other fields are taken as reported. |
| `FormatDate.FillZero` | src/utils/formatDate.ts:93-98 | The text is digits that read back as the value. It has two characters for values below 100, and a leading "0" below 10. From 10 up it is plain decimal text. |
| `FormatDate.WeekdayOf` | src/utils/formatDate.ts:39 | The weekday `getDay()` numbers, with Sunday as 0. |
| `FormatDate.DayTableAsWritten` | src/utils/formatDate.ts:61-89 | Every written table has seven entries. |
| `FormatDate.GetDayNameAsWritten` | src/utils/formatDate.ts:60-91 | `getDayName` as written: entry `day` of the written table. |
| `FormatDate.SundayMisnamed` | src/utils/formatDate.ts:74 | As written, a Sunday is "Sat" in English and "星期一" in Chinese. |
| `FormatDate.AsWrittenVersusNames` | src/utils/formatDate.ts:72-87 | The written English tables are right from Monday to Friday. The written Chinese tables give the name of the following day. |
| `FormatDate.DayTable` | src/utils/formatDate.ts:61-89 | The corrected tables: entry `i` is the name, listed weekday by weekday in `Name`, of the weekday `getDay()` calls `i`. |
| `FormatDate.GetDayName` | src/utils/formatDate.ts:60-91 | The corrected `getDayName`: the name of the weekday `getDay()` reports. |
| `FormatDate.OneLetterTableUnchanged` | src/utils/formatDate.ts:72 | The English one-letter table needs no correction. |
| `FormatDate.FormatDate` | src/utils/formatDate.ts:19-33 | The corrected `formatDate`, whose day name comes from the corrected `getDayName`. The language defaults to English and the format to `ddd`. `YYYYMMDDHHmmss` is `YYYYMMDD`, a space and `HHmmss`. `MMDD` and `HHmmss` are zero-padded fields joined by `-` and `:`. |
| `FormatDate.FormatDateAsWritten` | src/utils/formatDate.ts:19-33 | `formatDate` as written: the day name is entry `day` of the written table. Every other field equals the corrected result's. |
| `FormatDate.SundayFormattedAsSaturday` | src/utils/formatDate.ts:19-33 | With the default options, a Sunday is formatted with "Sat" as written and "Sun" corrected. Nothing else differs. |
| `FormatDate.TimeReadsBack` | src/utils/formatDate.ts:31 | For a real time of day, `HHmmss` has eight characters, with colons at 2 and 5. Its fields read back as the hours, minutes and seconds. |
| `FormatDate.MonthDayReadsBack` | src/utils/formatDate.ts:30 | For a real date, `MMDD` has five characters. The month reads back as `getMonth() + 1`, in 1..12, and the day reads back as the day of the month. |
| `Patterns.Run` | src/utils/colorUtils.ts:5 | The greedy run of one character class from a position: every character in it belongs to the class. |
| `Patterns.RunIsMaximal` | src/utils/colorUtils.ts:5 | The run stops at the end of the text or at a character outside the class. |
| `Patterns.MatchSound` | src/utils/colorUtils.ts:5 | A match the matcher returns fits the token sequence at that position. |
| `Patterns.MatchComplete` | src/utils/colorUtils.ts:5 | When every variable-length token is followed by a token that its class excludes, any fit is the one the matcher returns. So backtracking finds nothing else. |
| `Patterns.MatchThenSound` | src/utils/colorUtils.ts:5 | A match of "head, then the first tail or else the second" fits as the regular expression would read it. |
| `Patterns.MatchThenComplete` | src/utils/colorUtils.ts:5 | Under the same condition, any fit of "head, then either tail" is the one returned, with the first tail preferred. |
| `Patterns.FirstMatchThen` | src/utils/colorUtils.ts:5 | The leftmost position where the expression matches. No earlier position matches, and with no result none does. |
| `ColorUtils.MatchRgbAt` | src/utils/colorUtils.ts:5 | The `rgba?\(…\)` expression tried at one position: its result is a match, and it is the only one there. |
| `ColorUtils.RgbUnique` | src/utils/colorUtils.ts:5 | At each position the `rgb` expression has at most one match. |
| `ColorUtils.CapturesAreDigits` | src/utils/colorUtils.ts:5 | The three captures of a match are non-empty runs of decimal digits. |
| `ColorUtils.FirstRgbMatch` | src/utils/colorUtils.ts:5 | The leftmost match of the unanchored `rgb` expression. |
| `ColorUtils.HexMatch` | src/utils/colorUtils.ts:6 | It matches exactly six hexadecimal digits, optionally after `#`, as the whole text. The three captures are the consecutive pairs. |
| `ColorUtils.Captured` | src/utils/colorUtils.ts:4-6 | `match || match`: the `rgb` captures if that expression matches anywhere, else the `#rrggbb` pairs. `rgb` captures are decimal and hex captures are two digits long. |
| `ColorUtils.CapturedFromRgb` | src/utils/colorUtils.ts:5 | When the `rgb` expression matches, its captures are the ones used. |
| `ColorUtils.ParseIntDecimal` | src/utils/colorUtils.ts:10-12 | `parseInt(d, 10)` of decimal digits is their decimal value. |
| `ColorUtils.HexPairInRange` | src/utils/colorUtils.ts:10-12 | Two hexadecimal digits read in base 16 give sixteen times the first digit plus the second, a value in 0..255. |
| `ColorUtils.Clamp` | src/utils/colorUtils.ts:2 | The opacity is clamped to 0..1. Values inside are kept, values below become 0 and values above become 1. |
| `ColorUtils.RgbTextIsNotHex` | src/utils/colorUtils.ts:6-9 | A text starting with "rgb" never matches `#rrggbb`. |
| `ColorUtils.ColorToHalfTransparentAsWritten` | src/utils/colorUtils.ts:1-25 | As written, the opacity is the clamped input when some expression matches, else 0. |
| `ColorUtils.AsWrittenReadsRgbInHex` | src/utils/colorUtils.ts:9-12 | As written, when the `rgb` expression matches a text that does not start with lower-case "rgb", its decimal captures are read in base 16. |
| `ColorUtils.UpperCaseRgbMisread` | src/utils/colorUtils.ts:9-12 | "RGB(255, 0, 0)" gives red 597 as written and 255 when corrected. |
| `ColorUtils.ColorToHalfTransparent` | src/utils/colorUtils.ts:1-25 | Corrected: an unmatched colour gives `rgba(0, 0, 0, 0)`. An `rgb` match gives its decimal captures and the clamped opacity. Otherwise `#rrggbb` gives the three hexadecimal pairs' values, in 0..255, and the clamped opacity. |
| `ColorUtils.AsWrittenAgrees` | src/utils/colorUtils.ts:9 | The written and corrected versions agree whenever the text starts with lower-case "rgb" or the `rgb` expression does not match. |
| `ColorUtils.ParsedComponents` | src/utils/colorUtils.ts:10-12 | "255" is 597 in base 16 and 255 in base 10. |
| `Message.Notify` | src/utils/message.ts:4-18 | The key is `format(description)` when a format is given, else the description. Exactly one text is shown: the entry for the key if it is truthy, else the raw description. A warning is printed exactly when a map is given and has no entry for the key. |
| `Message.NoMapShowsDescription` | src/utils/message.ts:10 | Without a map, the description is shown unchanged and nothing is warned. |
| `Message.ShownComesFromMapOrDescription` | src/utils/message.ts:10-16 | The shown text is the description or a text stored in the map. A warning only comes with the raw description, and a key that is present never warns. |
| `Message.FalsyEntryIsSilent` | src/utils/message.ts:10-14 | A key holding an empty or falsy value shows the raw description without a warning. |
| `Message.JoinSplitReplaces` | src/utils/WebRTC/message.ts:23 | `split(c).join(d)` replaces every `c` by `d`. |
| `Message.UpperSnake` | src/utils/WebRTC/message.ts:23 | The WebRTC `format`: spaces become underscores and letters are upper-cased, so the key has no spaces. |
| `Message.WebRtcLookupFound` | src/utils/WebRTC/message.ts:3-25 | "display success" finds the screen-sharing text with no warning. |
| `Message.WebRtcLookupMissing` | src/utils/WebRTC/message.ts:3-25 | "camera busy" is shown raw and warned about. |
| `SelectFile.UseUpload` | src/utils/directive/vSelectFile.ts:33-41 | `multiple` defaults to false, `min` and `max` to 0, and `accept` to the empty list. The accept list is joined with commas. |
| `SelectFile.Filter` | src/utils/directive/vSelectFile.ts:66-69 | A file is kept exactly when its size is at least `min` and, unless `max` is 0, at most `max`. |
| `SelectFile.FilterCounts` | src/utils/directive/vSelectFile.ts:66-69 | Counted with duplicates, each file in range is kept as many times as it was chosen, and a file out of range not at all. |
| `SelectFile.FilterIsSubsequence` | src/utils/directive/vSelectFile.ts:66-69 | The kept files keep their order. |
| `SelectFile.FilterKeepsAllIff` | src/utils/directive/vSelectFile.ts:66-73 | Nothing is dropped exactly when every file is in range, and then the list is unchanged. |
| `SelectFile.OnChange` | src/utils/directive/vSelectFile.ts:65-77 | The callback gets the kept files, the error and the whole selection. The error is set exactly when some file is out of range. |
| `SelectFile.DefaultsKeepEverything` | src/utils/directive/vSelectFile.ts:34-40 | With the defaults, every file is kept and no error is reported. |
| `SelectFile.OutOfRangeIsReported` | src/utils/directive/vSelectFile.ts:68-73 | A file below `min`, or above a non-zero `max`, is dropped and reported. |
| `SelectFile.AcceptReadsBack` | src/utils/directive/vSelectFile.ts:64 | The accept attribute splits back into the list when no entry holds a comma. |
| `WebWorker.Quote` | src/hooks/useWebWorkerFn.ts:89 | The dependency is wrapped in single quotes and unchanged inside them. |
| `WebWorker.DepsParser` | src/hooks/useWebWorkerFn.ts:85-91 | The result is empty exactly for no dependencies. Otherwise it is one `importScripts(...)` call. |
| `WebWorker.DepsRoundTrip` | src/hooks/useWebWorkerFn.ts:85-91 | The line names exactly its dependencies, in order, when none contains a comma. |
| `WebWorker.Terminate` | src/hooks/useWebWorkerFn.ts:43-49 | The worker and the pending promise are dropped and the status is set. With no worker it throws. |
| `WebWorker.WorkerFn` | src/hooks/useWebWorkerFn.ts:51-70 | While RUNNING it is refused and changes nothing. Otherwise there is a new worker, the call's promise is stored, and the status becomes RUNNING. |
| `WebWorker.OnMessage` | src/hooks/useWebWorkerFn.ts:17-31 | 'SUCCESS' resolves the pending call with the posted result and terminates with SUCCESS. Any other status rejects it with the posted result and terminates with ERROR. With no pending promise nothing settles. It throws exactly when no worker is left. |
| `WebWorker.OnError` | src/hooks/useWebWorkerFn.ts:33-38 | A worker error rejects the pending call with the error event itself and terminates with ERROR. |
| `WebWorker.OneCallAtATime` | src/hooks/useWebWorkerFn.ts:61-67 | A call made while one is pending is refused, and the pending call keeps its promise. |
| `WebWorker.SuccessfulRun` | src/hooks/useWebWorkerFn.ts:17-70 | The call started is the call resolved. The status ends SUCCESS, and a new call may start. |
| `WebWorker.FailedRun` | src/hooks/useWebWorkerFn.ts:33-70 | A worker error rejects exactly the call started, with the event. The status ends ERROR, and a new call may start. |
| `WebWorker.CallsAreFresh` | src/hooks/useWebWorkerFn.ts:51-70 | Calls started one after another get different, increasing numbers. |
| `WebWorker.TerminateTwiceThrows` | src/hooks/useWebWorkerFn.ts:43-49 | Terminating a second time throws, because the first drops the worker. |
| `EditUtils.GetRectInfo` | src/components/edit/utils.js:133-145 | Empty input gives the unbounded box. Otherwise the box contains every point. Its left and top edges are attained by points. Its right and bottom edges are attained by points, or are 0 where the zero seed of the maxima wins. |
| `EditUtils.NonNegativeSize` | src/components/edit/utils.js:142-144 | A box that holds at least one point has width and height of at least 0. |
| `EditUtils.Steps` | src/components/edit/utils.js:70-71 | The number of block steps below `n`: the least `k` with `k * 20 >= n`. |
| `EditUtils.IndexInBounds` | src/components/edit/utils.js:72-73 | The four bytes read at a pixel inside the image are inside its RGBA data. |
| `EditUtils.SampleGrid` | src/components/edit/utils.js:67-78 | The cells sampled are exactly the points of the 20-pixel grid inside the image, each once, `Steps(width) * Steps(height)` in all. Every read is in bounds. |
| `EditUtils.GridCovers` | src/components/edit/utils.js:75 | The painted blocks cover every pixel of the image. |
| `EditUtils.SetCanvasSize` | src/components/edit/utils.js:147-153 | The canvas is `lineWidth` larger in each dimension and shifted back by half of it, with `lineWidth` defaulting to 0. |
| `EditUtils.CanvasFramesBox` | src/components/edit/utils.js:147-153 | The canvas keeps the box's centre and leaves half a line width of margin on every side. |
| `EditImage.HandleAt` | src/components/edit/EditImage.tsx:12-21 | There is one handle for every pair of sides except "inside on both axes". |
| `EditImage.SidesDetermineHandle` | src/components/edit/EditImage.tsx:12-21 | A handle is determined by its horizontal and vertical sides. |
| `EditImage.UpdateCursor` | src/components/edit/EditImage.tsx:69-90 | Nothing changes while the button is down or the pointer is inside the region. Beyond the top-left corner it picks `LeftTop` with the `nwse-resize` cursor. Only the four resize cursors are ever set. |
| `EditImage.CursorPicksSides` | src/components/edit/EditImage.tsx:71-90 | For a proper region, the chain of tests picks exactly the handle on the pointer's sides, with that handle's cursor. |
| `EditImage.MirrorsAreInvolutions` | src/components/edit/EditImage.tsx:105-185 | Each mirror of the flip table undoes itself, and the horizontal and vertical mirrors commute. |
| `EditImage.MirrorsSwapSides` | src/components/edit/EditImage.tsx:105-185 | A mirror swaps the side on its own axis and keeps the other. |
| `EditImage.UpdateCutInfo` | src/components/edit/EditImage.tsx:92-212 | Nothing happens unless the button is down. The pointer is first kept at or after the parent's left and top. |
| `EditImage.DragIsPerAxis` | src/components/edit/EditImage.tsx:105-211 | The eight cases are one rule per axis. An axis the handle lies on moves one edge. The handle is mirrored on each axis whose new size is at most 9. |
| `EditImage.StartEdgeStaysInside` | src/components/edit/EditImage.tsx:107-108 | A left or top handle keeps the opposite edge fixed and the new edge inside the parent, 9 pixels short of its end. |
| `EditImage.EndEdgeStaysInside` | src/components/edit/EditImage.tsx:146-148 | A right or bottom handle keeps the start edge and stops the end edge at the parent's end. |
| `EditImage.FlipNeedsSmallSize` | src/components/edit/EditImage.tsx:109-111 | A handle flips on an axis exactly when its new size there is at most `minSize`. A handle off the axis never flips on it. |
| `EditImage.MoveRegion` | src/components/edit/EditImage.tsx:245-264 | The region keeps its size. A region that fits stays inside the parent. A move that stays inside is followed exactly. The remembered pointer becomes this event's. |
| `EditImage.MoveIsNearestInside` | src/components/edit/EditImage.tsx:257-259 | When the region fits, the new offset is the allowed offset nearest to where the pointer would take it. |
| `EditImage.WideRegionLeavesParent` | src/components/edit/EditImage.tsx:257-259 | A region wider than its parent is pushed past the left edge, because the upper bound is applied last. |
| `EditImage.Reset` | src/components/edit/EditImage.tsx:304-314 | When not cropping, the crop box returns to the whole image, the listeners are removed and the cursor is `auto`. When cropping, the listeners are attached. |
| `EditImage.Cut` | src/components/edit/EditImage.tsx:276-281 | The crop switch is toggled, and the listeners match the new state. Leaving crop mode restores the whole image. |
| `EditImage.AfterSave` | src/components/edit/EditImage.tsx:282-298 | With cropping off there is no crop region, so `save` changes nothing. Otherwise cropping ends with no listener attached, the whole image as the crop box and the `auto` cursor. Listeners stay attached exactly while cropping. |
| `EditImage.CutTwice` | src/components/edit/EditImage.tsx:276-281 | Toggling twice restores the switch and leaves the whole image as the crop box. |
| `RtcClient.Initial` | src/utils/WebRTC/rtc-client.ts:78 | The empty registry satisfies the registry invariant. |
| `RtcClient.CreateConnector` | src/utils/WebRTC/rtc-client.ts:102-118 | A fresh id is inserted at the end before the media step. The entry stays even when that step fails, and is bound only when it succeeds. The invariant is kept. |
| `RtcClient.CreateDisplayWebRtc` | src/utils/WebRTC/rtc-client.ts:154-166 | A display connector is created. An offer to the member is sent only when its media and SDP steps succeed. |
| `RtcClient.ShareTargets` | src/utils/WebRTC/rtc-client.ts:177 | With no screen share present, there is one target per connector, in insertion order. |
| `RtcClient.DisplayConnectors` | src/utils/WebRTC/rtc-client.ts:177-179 | One display connector per target, with consecutive fresh ids appended in order. Their offers are sent in that order. |
| `RtcClient.ShareDisplayMedia` | src/utils/WebRTC/rtc-client.ts:168-184 | With a screen share present, nothing changes. Otherwise one connector is added per existing connector. `displayState` becomes true only when the display stream was acquired. |
| `RtcClient.ShareDisplayMediaAdds` | src/utils/WebRTC/rtc-client.ts:176-183 | The added connectors are exactly the new display ones, and existing entries are unchanged. The offers go to each existing member in insertion order. The invariant is kept. |
| `RtcClient.GetOffer` | src/utils/WebRTC/rtc-client.ts:186-201 | Always one user connector, preceded by a display connector exactly when `displayState` is set. Existing entries are unchanged, and each offer is sent when its steps succeed. |
| `RtcClient.AnswerKind` | src/utils/WebRTC/rtc-client.ts:207 | An incoming offer creates a user connector exactly when its type is `user`, and never a local display connector. |
| `RtcClient.Offer` | src/utils/WebRTC/rtc-client.ts:203-225 | It creates a connector of that kind. It records the sender's member and connector ids once media succeeded, answers once the SDP steps succeed, and leaves every other entry unchanged. |
| `RtcClient.Answer` | src/utils/WebRTC/rtc-client.ts:227-246 | An unknown connector id changes nothing. Otherwise only that entry's member and remote connector ids are recorded. |
| `RtcClient.IceCandidateMessage` | src/utils/WebRTC/rtc-client.ts:266-277 | The registry never changes. A candidate is handed on only for a known connector. |
| `RtcClient.LocalIceCandidate` | src/utils/WebRTC/rtc-client.ts:248-258 | A local candidate is forwarded, once, exactly when the connector knows its peer's connector id and member id and a candidate is present. |
| `RtcClient.Track` | src/utils/WebRTC/rtc-client.ts:260-264 | For a bound connector, the remote stream is recorded on that connector only, and a roster notification is requested. Otherwise nothing happens. |
| `RtcClient.DisplayStreamEnded` | src/utils/WebRTC/rtc-client.ts:149-152 | Only `displayState` is cleared. The connectors stay. |
| `RtcClient.Without` | src/utils/WebRTC/rtc-client.ts:371 | Removes exactly the given id and keeps the order free of duplicates. |
| `RtcClient.CloseById` | src/utils/WebRTC/rtc-client.ts:367-374 | Exactly that entry is removed and closed, and every other entry is untouched. An unknown id leaves the registry as it is. A roster notification is requested either way. |
| `RtcClient.CloseByIdTwice` | src/utils/WebRTC/rtc-client.ts:367-374 | Closing the same id twice is closing it once, plus one more roster notification. |
| `RtcClient.Exit` | src/utils/WebRTC/rtc-client.ts:279-284 | A peer's `exit` removes exactly its connector and keeps the invariant. |
| `RtcClient.CloseHead` | src/utils/WebRTC/rtc-client.ts:376-380 | Closing the oldest connector removes the head of the insertion order. |
| `RtcClient.CloseAll` | src/utils/WebRTC/rtc-client.ts:376-380 | Every connector is closed in insertion order, and the registry is left empty. |
| `RtcClient.ExitNotice` | src/utils/WebRTC/rtc-client.ts:312-323 | Nothing for an empty registry. Otherwise one `exit` message lists every connector's peer, in insertion order. |
| `RtcClient.Close` | src/utils/WebRTC/rtc-client.ts:390-396 | The exit notice comes first, then every connector is closed, and the registry ends empty. |
| `RtcClient.Roster` | src/utils/WebRTC/rtc-client.ts:358-365 | Each entry is a listed id with that id's connector, never a local display one. There are no more entries than ids. |
| `RtcClient.RosterSnoc` | src/utils/WebRTC/rtc-client.ts:358-365 | The roster of one more id is the roster of the others followed by that id's entry, unless it is a local display connector. So the roster is the key order filtered. |
| `RtcClient.RosterMembers` | src/utils/WebRTC/rtc-client.ts:358-365 | An entry is in the roster exactly when its id is listed, it carries that id's connector and that connector is not a local display one. |
| `RtcClient.RosterIdsDistinct` | src/utils/WebRTC/rtc-client.ts:358-365 | Distinct listed ids give roster entries with distinct ids. |
| `RtcClient.RosterIdsExact` | src/utils/WebRTC/rtc-client.ts:358-365 | Over ids without repeats, the roster's ids have no repeats and are exactly the listed ids whose connector is not a local display one. |
| `RtcClient.RosterCount` | src/utils/WebRTC/rtc-client.ts:358-365 | Over ids without repeats, the roster has exactly one entry per listed id whose connector is not a local display one. |
| `RtcClient.RosterOfClient` | src/utils/WebRTC/rtc-client.ts:358-365 | The roster never lists a local display connector. It lists every user and remote-display connector with its id, and has exactly as many entries as there are such connectors. |
| `RtcClient.Handshake` | src/utils/WebRTC/rtc-client.ts:186-246 | In a two-party handshake (get-offer, offer, answer), both connectors end up naming each other's member and connector ids. |

## Left out

- **Browser and I/O are not modelled:**
  - the WebRTC wrapper `WebRTC.ts` and real SDP/ICE behaviour; each outcome is a parameter;
  - socket I/O, including `sendMessage`;
  - `navigator.mediaDevices`, `enumerateDevices` and `getSupportedConstraints`;
  - the DOM, canvas drawing (`drawLine`, `drawRect`, `drawMosaic`, `cropPicture`), toasts and console output;
  - the window `unload` listener.
- **RtcClient:**
  - The roster notification goes through a 100 ms debounce and the `mitt` emitter. The model records a `RosterChanged` request instead of timing the notification.
  - The uncalled `clearEmitter` is left out.
  - The device release and socket close inside `close()` are outside the registry model.
- **RtcClient.ShareDisplayMedia** is weaker than the source, because it only records whether the display stream was acquired. A failed acquisition makes the `ended` binding throw, and the model reports that as `BindFailed` without modelling the exception object.
- **MediaDevices:**
  - `addTrack`, `removeTrack` and the `*Tracks` getters are one-line wrappers over the browser's stream methods.
  - The user-stream event wrappers `localStream_on/off/offAll` and `displayStream_offAll` are not modelled. They delegate to the emitter the same way `displayStream_on` and `displayStream_off` do.
- **Debounce, Throttle:**
  - `fn` throwing (the promise is rejected rather than resolved) is not told apart: an invocation settles its promise either way.
  - Wall-clock values are integers.
- **Base64.Atob:** a final partial group's leftover bits are discarded, as forgiving-base64 decoding says. Bytes are `0..255`.
- **FileUtils:** `fileAndBlobToBase64` and `fileToBlob` wrap `FileReader` callbacks and are not modelled. A `File` is a record of its bytes, name and type; of the `File` constructor only the normalisation of `type` is modelled (`BlobType`).
- **ColorUtils:**
  - The result is kept as numbers rather than as the `rgba(…)` text, because JavaScript's number-to-text conversion of the opacity is not modelled.
  - The opacity is a real number.
  - `parseInt` of very long digit runs loses precision in JavaScript and is exact here.
  - The `console.error` call is not modelled.
- FormatDate.FormatDate: an invalid `Date` is not modelled. There every field is `NaN`, the day name is undefined and the texts read "NaN"; the model's fields are integers and the weekday is below 7.
- FileTypeImage.GetFileType: only ASCII letters are lower-cased. JavaScript's `toLowerCase` maps every Unicode letter, so an extension such as "ÄPNG" is not modelled faithfully.
- Message.UpperSnake: only ASCII letters are upper-cased, for the same reason. `toUpperCase` also maps non-ASCII letters and may lengthen a text ("ß" becomes "SS").
- Message.Notify: the lookup treats the text map as a plain dictionary. Keys inherited through the prototype chain, such as "toString", are not modelled, and neither is the order of the console warning relative to the toast.
- **FormatDate:** the clock and time-zone lookup of `Date` are not modelled; the model takes the fields a `Date` reports. The `UTC*` fields, `time` and `timezoneOffset` are copied through unread and are left out.
- **Message:**
  - `ant-design-vue`'s `message.error`/`message.success` are not modelled; the texts handed to them are returned.
  - `Falsy` stands for the non-text values `null`, `0` and `false`.
- **WebWorker:** the function-to-text code, `jobRunner`, blob URLs and `postMessage` are not modelled. A worker and a call are fresh numbers.
- **SelectFile:** the hidden input element, the `beforeCheck` hook and the directive registration are DOM glue.
- **EditUtils:** `getImageOriginalSize` and the float scaling are left out. Pixel coordinates are integers, and the canvas offset is a real.
- **EditImage:**
  - The mask elements, `updateMaskStyle`, `updateDown`, `updateMoveDown`, animation frames and the float scaling in `save` are not modelled.
  - CSS lengths are whole pixels or the initial `100%`.
- **Other files are not part of this model.** The UI components, the other directives, the hooks other than `useWebWorkerFn`, the audio and clipboard utilities, `observer.ts`, the store and the build configuration fall in this group.

## Findings

| source | as written | input that shows it | evidently intended | confidence | as-written member | corrected member |
|---|---|---|---|---|---|---|
| src/utils/formatDate.ts:72-87 | `getDay()` counts from Sunday = 0. The English `dd`/`ddd` tables start with Saturday's name and end with Sunday's. The Chinese tables start on Monday. | Any Sunday (`getDay() == 0`) with the default options gives "Sat". With `zh_cn` it gives "星期一". | Tables indexed from Sunday, so the day name is the weekday `getDay()` reports. | high, not executed | `FormatDate.GetDayNameAsWritten`, `FormatDate.SundayMisnamed`, `FormatDate.FormatDateAsWritten`, `FormatDate.SundayFormattedAsSaturday` | `FormatDate.GetDayName`, `FormatDate.FormatDate` |
| src/utils/colorUtils.ts:9 | The radix is 10 only when the text starts with lower-case "rgb". Yet the `rgb` expression is case-insensitive and unanchored, so its decimal captures can be read in base 16. | `colorToHalfTransparent("RGB(255, 0, 0)", 1)` gives red 597. | Decimal components whenever the `rgb` expression matched, hexadecimal only for `#rrggbb`. | high, not executed | `ColorUtils.ColorToHalfTransparentAsWritten`, `ColorUtils.UpperCaseRgbMisread` | `ColorUtils.ColorToHalfTransparent` |
| src/utils/MediaDevices/mediaDevices.ts:140-141 | `close()` closes the event targets but keeps them. `CustomEvent.close` sets their target to `null` and keeps the event keys. So a second `close()` reaches `this.target.removeEventListener` on `null`. | Acquire the display stream, bind a listener with `displayStream_on("ended", cb)`, then call `close()` twice. The second call throws `TypeError`. | Release the event targets with the streams, so closing again is harmless. | medium, not executed | `MediaDevices.CloseAsWritten`, `MediaDevices.CloseTwiceThrows` | `MediaDevices.Close`, `MediaDevices.CloseIsIdempotent` |
