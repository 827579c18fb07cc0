/** `alreadySeen`: dropping the webhook deliveries WhatsApp sends again,
    by remembering each message id with the time it was first seen. */
module Dedup {
  import opened JsText

  /** How long, in milliseconds, an id is remembered: ten minutes. */
  const WindowMs: int := 10 * 60 * 1000

  /** An entry recorded at `t` is dropped by a call at `now` once more than
      WindowMs milliseconds have passed. */
  predicate Expired(t: int, now: int) {
    now - t > WindowMs
  }

  /** The remembered ids after the clean-up loop of a call at `now`. */
  function Purged(m: map<JsString, int>, now: int): (p: map<JsString, int>)
    ensures forall k :: k in p <==> k in m && !Expired(m[k], now)
    ensures forall k :: k in p ==> p[k] == m[k]
  {
    map k | k in m && !Expired(m[k], now) :: m[k]
  }

  /** What one call answers and what it leaves remembered. */
  datatype Outcome = Outcome(duplicate: bool, seen: map<JsString, int>)

  /** `alreadySeen(msgId)` at time `now`, on the remembered ids `m`. The
      empty id stands for every falsy id: it is answered `false` before the
      clean-up runs. */
  function SeenStep(m: map<JsString, int>, msgId: JsString, now: int): Outcome {
    if msgId == [] then Outcome(false, m)
    else
      var p := Purged(m, now);
      if msgId in p then Outcome(true, p) else Outcome(false, p[msgId := now])
  }

  /** The map `seenMsgIds` and the function that reads and updates it. */
  class SeenIds {
    var seen: map<JsString, int>

    constructor ()
      ensures seen == map[]
    {
      seen := map[];
    }

    /** One call of `alreadySeen(msgId)`, `now` standing for `Date.now()`. */
    method AlreadySeen(msgId: JsString, now: int) returns (dup: bool)
      modifies this
      ensures dup == SeenStep(old(seen), msgId, now).duplicate
      ensures seen == SeenStep(old(seen), msgId, now).seen
    {
      if msgId == [] {
        return false;
      }
      // The clean-up loop visits every entry once and deletes the expired
      // ones; which order it visits them in does not matter.
      ghost var m := seen;
      var keys := seen.Keys;
      while keys != {}
        invariant keys <= m.Keys
        invariant forall k :: k in seen <==> k in m && (k in keys || !Expired(m[k], now))
        invariant forall k :: k in seen ==> seen[k] == m[k]
        decreases keys
      {
        var k :| k in keys;
        if Expired(seen[k], now) {
          seen := seen - {k};
        }
        keys := keys - {k};
      }
      assert seen == Purged(m, now);
      if msgId in seen {
        return true;
      }
      seen := seen[msgId := now];
      dup := false;
    }
  }

  /** A call reports a duplicate exactly when the id is non-empty and was
      remembered less than (or exactly) WindowMs milliseconds before. */
  lemma DuplicateIff(m: map<JsString, int>, msgId: JsString, now: int)
    ensures SeenStep(m, msgId, now).duplicate <==>
              msgId != [] && msgId in m && now - m[msgId] <= WindowMs
  {
  }

  /** After a call with a non-empty id nothing older than the window is
      remembered, every entry still within it is kept as it was, the id
      itself is remembered, and no other id is added. A duplicate keeps its
      first time: a resend does not extend the window. */
  lemma StepKeepsWindow(m: map<JsString, int>, msgId: JsString, now: int)
    requires msgId != []
    ensures var o := SeenStep(m, msgId, now);
            && (forall k :: k in o.seen ==> !Expired(o.seen[k], now))
            && (forall k :: k in m && !Expired(m[k], now) ==> k in o.seen && o.seen[k] == m[k])
            && o.seen.Keys <= m.Keys + {msgId}
            && msgId in o.seen
            && o.seen[msgId] == (if o.duplicate then m[msgId] else now)
  {
  }

  /** A falsy id is never a duplicate and leaves the remembered ids alone. */
  lemma FalsyIdIgnored(m: map<JsString, int>, now: int)
    ensures SeenStep(m, [], now) == Outcome(false, m)
  {
  }

  /** The answers and the final remembered ids of a run of calls, each call
      being an id and the time it is made at. */
  function Run(m: map<JsString, int>, calls: seq<(JsString, int)>): (r: (seq<bool>, map<JsString, int>))
    ensures |r.0| == |calls|
    decreases |calls|
  {
    if calls == [] then ([], m)
    else
      var o := SeenStep(m, calls[0].0, calls[0].1);
      var rest := Run(o.seen, calls[1..]);
      ([o.duplicate] + rest.0, rest.1)
  }

  /** Once `id` is remembered from time `t0`, every later call made within
      the window from `t0` keeps it remembered from `t0`, and every one of
      those calls that carries `id` is reported as a duplicate. */
  lemma {:induction false} RememberedThroughWindow(m: map<JsString, int>, calls: seq<(JsString, int)>,
                                                   id: JsString, t0: int)
    requires id != [] && id in m && m[id] == t0
    requires forall i :: 0 <= i < |calls| ==> calls[i].1 - t0 <= WindowMs
    ensures id in Run(m, calls).1 && Run(m, calls).1[id] == t0
    ensures forall i :: 0 <= i < |calls| && calls[i].0 == id ==> Run(m, calls).0[i]
    decreases |calls|
  {
    if calls != [] {
      var o := SeenStep(m, calls[0].0, calls[0].1);
      assert id in o.seen && o.seen[id] == t0;
      var tail := calls[1..];
      assert forall i :: 0 <= i < |tail| ==> tail[i] == calls[i + 1];
      RememberedThroughWindow(o.seen, tail, id, t0);
      forall i | 0 <= i < |calls| && calls[i].0 == id ensures Run(m, calls).0[i] {
        if i == 0 {
          assert o.duplicate;
        } else {
          assert Run(m, calls).0[i] == Run(o.seen, tail).0[i - 1];
        }
      }
    }
  }

  /** A call made more than the window after an id was remembered does not
      report it, and remembers it afresh from that call. */
  lemma ForgottenAfterWindow(m: map<JsString, int>, id: JsString, now: int)
    requires id != [] && id in m && Expired(m[id], now)
    ensures !SeenStep(m, id, now).duplicate
    ensures SeenStep(m, id, now).seen[id] == now
  {
  }
}
