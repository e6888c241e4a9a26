/** `useMessage(callback)(descMap, format)(description)` of
    src/utils/message.ts: the text shown for an error or success
    description. The toast behind `callback` and `console.warn` are outside
    the model; a call reports what it hands to each of them, in order. */
module Message {
  import opened Wrappers
  import Strings

  /** A value stored in the description map: a text, or another value that
      JavaScript reads as false (`null`, `0`, `false`). A key holding
      `undefined` reads like a missing key and is modelled as one. */
  datatype Value = Text(text: string) | Falsy

  predicate Truthy(v: Value) {
    v.Text? && v.text != ""
  }

  /** What one call hands to the outside: the arguments of `callback` and
      of `console.warn`, in the order of the calls. */
  datatype Effects = Effects(shown: seq<string>, warnings: seq<string>)

  const WarningPrefix: string := "Undefined message type："

  /** The key looked up: the formatted description, or the description
      itself without a `format`. */
  function Key(description: string, format: Option<string -> string>): string {
    match format
    case Some(f) => f(description)
    case None => description
  }

  /** The handler `useMessage(callback)(descMap, format)` returns, applied
      to `description`. */
  function Notify(descMap: Option<map<string, Value>>, format: Option<string -> string>, description: string): (r: Effects)
    ensures |r.shown| == 1
    ensures var key := Key(description, format);
      r.shown[0] == if descMap.Some? && key in descMap.value && Truthy(descMap.value[key])
        then descMap.value[key].text else description
    ensures var key := Key(description, format);
      r.warnings == if descMap.Some? && key !in descMap.value then [WarningPrefix + description] else []
  {
    var key := Key(description, format);
    var entry := if descMap.Some? && key in descMap.value then Some(descMap.value[key]) else None;
    var message := if entry.Some? && Truthy(entry.value) then entry.value.text else description;
    var warned := descMap.Some? && entry.None?;
    Effects([message], if warned then [WarningPrefix + description] else [])
  }

  /** Without a map the description is shown as it is, whatever the format,
      and nothing is printed. */
  lemma NoMapShowsDescription(format: Option<string -> string>, description: string)
    ensures Notify(None, format, description) == Effects([description], [])
  {
  }

  /** What is shown is the description or a non-empty text stored in the
      map; exactly one of a shown map text and a warning occurs unless the
      key holds an empty or falsy value. */
  lemma ShownComesFromMapOrDescription(descMap: map<string, Value>, format: Option<string -> string>, description: string)
    ensures var r := Notify(Some(descMap), format, description);
      && (r.shown[0] == description || Text(r.shown[0]) in descMap.Values)
      && (|r.warnings| == 1 ==> r.shown[0] == description)
      && (Key(description, format) in descMap ==> r.warnings == [])
  {
    var key := Key(description, format);
    if key in descMap && Truthy(descMap[key]) {
      assert descMap[key] == Text(descMap[key].text);
    }
  }

  /** A key that holds an empty text or a falsy value shows the raw
      description but prints no warning: only a missing key warns. */
  lemma FalsyEntryIsSilent(descMap: map<string, Value>, format: Option<string -> string>, description: string)
    requires Key(description, format) in descMap && !Truthy(descMap[Key(description, format)])
    ensures Notify(Some(descMap), format, description) == Effects([description], [])
  {
  }

  /** Every `c` of `s` replaced by `d`. */
  function Replace(s: string, c: char, d: char): (r: string)
    ensures |r| == |s|
    ensures forall i :: 0 <= i < |s| ==> r[i] == if s[i] == c then d else s[i]
  {
    seq(|s|, i requires 0 <= i < |s| => if s[i] == c then d else s[i])
  }

  /** Replacing in a string whose first `c` is at `k`: the part before it,
      then `d`, then the rest replaced. */
  lemma ReplaceAt(s: string, c: char, d: char, k: nat)
    requires k < |s| && s[k] == c && c !in s[..k]
    ensures Replace(s, c, d) == s[..k] + [d] + Replace(s[k + 1..], c, d)
  {
    var r := s[..k] + [d] + Replace(s[k + 1..], c, d);
    forall i | 0 <= i < |s| ensures Replace(s, c, d)[i] == r[i] {
      if i < k {
        assert s[..k][i] == s[i];
      } else if i > k {
        assert s[k + 1..][i - k - 1] == s[i];
      }
    }
  }

  /** `s.split(c).join(d)` replaces every `c` by `d`. */
  lemma {:induction false} JoinSplitReplaces(s: string, c: char, d: char)
    ensures Strings.Join(Strings.Split(s, c), d) == Replace(s, c, d)
    decreases |s|
  {
    if c in s {
      var k := Strings.IndexOf(s, c);
      var rest := Strings.Split(s[k + 1..], c);
      JoinSplitReplaces(s[k + 1..], c, d);
      assert Strings.Split(s, c) == [s[..k]] + rest;
      assert ([s[..k]] + rest)[1..] == rest;
      assert Strings.Join(Strings.Split(s, c), d) == s[..k] + [d] + Strings.Join(rest, d);
      ReplaceAt(s, c, d, k);
    } else {
      assert Replace(s, c, d) == s;
    }
  }

  /** The `format` of src/utils/WebRTC/message.ts: words joined by `_` and
      upper-cased. */
  function UpperSnake(description: string): (key: string)
    ensures key == Strings.Upper(Strings.Join(Strings.Split(description, ' '), '_'))
    ensures ' ' !in key
  {
    JoinSplitReplaces(description, ' ', '_');
    Strings.Upper(Replace(description, ' ', '_'))
  }

  /** The `Message` table of src/utils/WebRTC/message.ts. */
  const WebRtcMessages: map<string, Value> := map[
    "USER_PERMISSION_DENIED" := Text("用户未允许浏览器访问摄像头和麦克风"),
    "DISPLAY_PERMISSION_DENIED" := Text("用户已取消屏幕共享"),
    "DISPLAY_SUCCESS" := Text("已开启屏幕共享"),
    "USER_SUCCESS" := Text("用户已加入会议"),
    "USER_COULD_NOT_START_VIDEO_SOURCE" := Text("无法开启摄像头")]

  lemma UpperSnakeExamples()
    ensures UpperSnake("display success") == "DISPLAY_SUCCESS"
    ensures UpperSnake("camera busy") == "CAMERA_BUSY"
  {
    SnakeTexts();
    UpperTexts();
  }

  lemma SnakeTexts()
    ensures Replace("display success", ' ', '_') == "display_success"
    ensures Replace("camera busy", ' ', '_') == "camera_busy"
  {
  }

  lemma UpperTexts()
    ensures Strings.Upper("display_success") == "DISPLAY_SUCCESS"
    ensures Strings.Upper("camera_busy") == "CAMERA_BUSY"
  {
  }

  lemma WebRtcKeys()
    ensures Key("display success", Some(UpperSnake)) == "DISPLAY_SUCCESS"
    ensures Key("camera busy", Some(UpperSnake)) == "CAMERA_BUSY"
  {
    UpperSnakeExamples();
  }

  lemma WebRtcEntries()
    ensures "DISPLAY_SUCCESS" in WebRtcMessages && WebRtcMessages["DISPLAY_SUCCESS"] == Text("已开启屏幕共享")
    ensures "CAMERA_BUSY" !in WebRtcMessages
  {
  }

  /** A description in words finds its text through `UpperSnake`. */
  lemma WebRtcLookupFound()
    ensures Notify(Some(WebRtcMessages), Some(UpperSnake), "display success") == Effects(["已开启屏幕共享"], [])
  {
    WebRtcKeys();
    WebRtcEntries();
  }

  /** One the table lacks is shown raw and warned about. */
  lemma WebRtcLookupMissing()
    ensures Notify(Some(WebRtcMessages), Some(UpperSnake), "camera busy")
      == Effects(["camera busy"], [WarningPrefix + "camera busy"])
  {
    WebRtcKeys();
    WebRtcEntries();
  }
}
