/** `CustomEvent` of src/utils/event.ts: a listener registry (`eventMap`,
    event name to set of callbacks) kept in step with an `EventTarget`.
    The target's listener list is abstracted as the set of (event, callback)
    pairs registered on it; `addEventListener` ignores a pair already present
    and `removeEventListener` of an absent pair does nothing, as in the DOM.
    After `close` the target is `null`, and every later call that touches it
    throws a `TypeError`. */
module CustomEvent {
  import opened Wrappers

  type EventName = string

  /** Identity of a JavaScript function object. */
  type Callback = nat

  type Listener = (EventName, Callback)

  datatype Emitter = Emitter(target: Option<set<Listener>>, eventMap: map<EventName, set<Callback>>)

  const NullTarget := "TypeError: Cannot read properties of null"

  /** `new CustomEvent(target)` on a target with no listeners yet. */
  function New(): (em: Emitter)
    ensures InStep(em)
  {
    Emitter(Some({}), map[])
  }

  /** Every (event, callback) pair recorded in the map. */
  function Pairs(m: map<EventName, set<Callback>>): set<Listener> {
    set e, cb | e in m && cb in m[e] :: (e, cb)
  }

  /** The target is live and its listeners are exactly the recorded pairs. */
  predicate InStep(em: Emitter) {
    em.target.Some? && em.target.value == Pairs(em.eventMap)
  }

  /** `on(eventName, callback)`. */
  function On(em: Emitter, e: EventName, cb: Callback): (r: Result<Emitter>)
    ensures r.Ok? <==> em.target.Some?
    ensures r.Thrown? ==> r.message == NullTarget
    ensures r.Ok? ==> && r.value.target == Some(em.target.value + {(e, cb)})
                      && e in r.value.eventMap
                      && r.value.eventMap[e] == (if e in em.eventMap then em.eventMap[e] else {}) + {cb}
                      && (forall k :: k != e ==> (k in r.value.eventMap <==> k in em.eventMap))
                      && (forall k :: k != e && k in em.eventMap ==> k in r.value.eventMap && r.value.eventMap[k] == em.eventMap[k])
    ensures InStep(em) ==> InStep(r.value)
  {
    if em.target.None? then Thrown(NullTarget)
    else
      var set0 := if e in em.eventMap then em.eventMap[e] else {};
      var m := em.eventMap[e := set0 + {cb}];
      assert InStep(em) ==> Pairs(m) == em.target.value + {(e, cb)};
      Ok(Emitter(Some(em.target.value + {(e, cb)}), m))
  }

  /** `off(eventName, callback?)`: with a callback, removes that one pair;
      without one, removes every callback of the event and leaves its set
      empty. An event never registered keeps no entry. */
  function Off(em: Emitter, e: EventName, cb: Option<Callback>): (r: Result<Emitter>)
    ensures r.Ok? <==> em.target.Some?
    ensures r.Thrown? ==> r.message == NullTarget
    ensures r.Ok? ==> r.value.eventMap.Keys == em.eventMap.Keys
    ensures r.Ok? ==> forall k :: k != e && k in em.eventMap ==> r.value.eventMap[k] == em.eventMap[k]
    ensures r.Ok? && e in em.eventMap && cb.None? ==> r.value.eventMap[e] == {}
    ensures r.Ok? && e in em.eventMap && cb.Some? ==> r.value.eventMap[e] == em.eventMap[e] - {cb.value}
    ensures r.Ok? && cb.Some? ==> r.value.target == Some(em.target.value - {(e, cb.value)})
    ensures InStep(em) ==> InStep(r.value)
  {
    if em.target.None? then Thrown(NullTarget)
    else if cb.None? then
      if e in em.eventMap then
        var t := em.target.value - set c | c in em.eventMap[e] :: (e, c);
        var m := em.eventMap[e := {}];
        assert InStep(em) ==> Pairs(m) == t;
        Ok(Emitter(Some(t), m))
      else Ok(em)
    else
      var t := em.target.value - {(e, cb.value)};
      if e in em.eventMap then
        var m := em.eventMap[e := em.eventMap[e] - {cb.value}];
        assert InStep(em) ==> Pairs(m) == t;
        Ok(Emitter(Some(t), m))
      else
        assert InStep(em) ==> Pairs(em.eventMap) == t;
        Ok(Emitter(Some(t), em.eventMap))
  }

  /** Registering the same pair twice keeps a single entry. */
  lemma OnTwiceIsOnce(em: Emitter, e: EventName, cb: Callback)
    requires em.target.Some?
    ensures On(On(em, e, cb).value, e, cb) == On(em, e, cb)
  {
    var once := On(em, e, cb).value;
    assert once.eventMap[e] + {cb} == once.eventMap[e];
    assert once.target.value + {(e, cb)} == once.target.value;
    assert once.eventMap[e := once.eventMap[e] + {cb}] == once.eventMap;
  }

  /** `off(e, cb)` undoes `on(e, cb)` when the pair was not registered before. */
  lemma OffUndoesOn(em: Emitter, e: EventName, cb: Callback)
    requires InStep(em)
    requires e in em.eventMap && cb !in em.eventMap[e]
    ensures Off(On(em, e, cb).value, e, Some(cb)) == Ok(em)
  {
    var r := Off(On(em, e, cb).value, e, Some(cb)).value;
    assert r.eventMap == em.eventMap;
    assert (e, cb) !in em.target.value;
  }

  /** `offAll()`, in closed form: every set emptied (keys kept) and every
      recorded pair removed from the target. On a closed emitter the first
      `off(key)` throws, so it throws exactly when some key is recorded. */
  function OffAll(em: Emitter): (r: Result<Emitter>)
    ensures em.target.None? && |em.eventMap| > 0 ==> r == Thrown(NullTarget)
    ensures em.target.None? && |em.eventMap| == 0 ==> r == Ok(em)
    ensures em.target.Some? ==> r.Ok? && r.value.eventMap.Keys == em.eventMap.Keys
    ensures r.Ok? ==> forall k :: k in r.value.eventMap ==> r.value.eventMap[k] == {}
    ensures InStep(em) ==> InStep(r.value) && r.value.target == Some({})
  {
    if em.target.None? then
      if |em.eventMap| > 0 then Thrown(NullTarget) else Ok(em)
    else
      var after := Emitter(Some(em.target.value - Pairs(em.eventMap)), map k | k in em.eventMap :: {});
      assert InStep(em) ==> InStep(after) && after.target == Some({}) by {
        if InStep(em) {
          OffAllEmptiesTarget(em, after);
        }
      }
      Ok(after)
  }

  /** `offAll()` as the source runs it: `off(key)` for each key in turn.
      Whatever order the keys are visited in, the result is `OffAll`. */
  method OffAllByKeys(em: Emitter) returns (r: Result<Emitter>)
    ensures r == OffAll(em)
  {
    if em.target.None? {
      if |em.eventMap| > 0 {
        var k :| k in em.eventMap;
        r := Off(em, k, None);
      } else {
        r := Ok(em);
      }
      return;
    }
    var cur := em;
    var todo := em.eventMap.Keys;
    while todo != {}
      invariant todo <= em.eventMap.Keys
      invariant cur.target.Some?
      invariant cur.eventMap.Keys == em.eventMap.Keys
      invariant forall k :: k in todo ==> cur.eventMap[k] == em.eventMap[k]
      invariant forall k :: k in em.eventMap && k !in todo ==> cur.eventMap[k] == {}
      invariant cur.target.value ==
        em.target.value - set k, c | k in em.eventMap && k !in todo && c in em.eventMap[k] :: (k, c)
      decreases todo
    {
      var k :| k in todo;
      var next := Off(cur, k, None);
      cur := next.value;
      todo := todo - {k};
    }
    assert cur.target.value == em.target.value - Pairs(em.eventMap);
    assert cur.eventMap == map k | k in em.eventMap :: {};
    assert cur == Emitter(Some(em.target.value - Pairs(em.eventMap)), map k | k in em.eventMap :: {});
    r := Ok(cur);
  }

  /** `close()`: `offAll()`, then the target is dropped. */
  function Close(em: Emitter): (r: Result<Emitter>)
    ensures em.target.None? && |em.eventMap| > 0 ==> r.Thrown?
    ensures r.Ok? ==> r.value.target.None?
    ensures em.target.Some? ==> && r.Ok?
                                && r.value.eventMap.Keys == em.eventMap.Keys
                                && forall k :: k in r.value.eventMap ==> r.value.eventMap[k] == {}
  {
    var cleared := OffAll(em);
    if cleared.Thrown? then cleared else Ok(Emitter(None, cleared.value.eventMap))
  }

  /** The registry stays in step with the target through `offAll`: both end
      up holding nothing. */
  lemma OffAllEmptiesTarget(em: Emitter, after: Emitter)
    requires InStep(em)
    requires after.target == Some(em.target.value - Pairs(em.eventMap))
    requires after.eventMap.Keys == em.eventMap.Keys
    requires forall k :: k in after.eventMap ==> after.eventMap[k] == {}
    ensures InStep(after) && after.target == Some({})
  {
    assert Pairs(after.eventMap) == {};
  }
}
