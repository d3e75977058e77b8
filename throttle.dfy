/**
 * The cooldown rule shared by the `last_captured` and `last_announced`
 * dictionaries of the recognition loop: an event for `key` is admitted when
 * the key has never fired or when strictly more than `interval` seconds have
 * passed since it last fired; an admitted event stamps the key with `now`.
 */
module Throttle {

  /** `key not in last or now - last[key] > interval`. */
  predicate Admits(last: map<string, real>, key: string, now: real, interval: real) {
    key !in last || now - last[key] > interval
  }

  /** The dictionary after an event: stamped when admitted, untouched when suppressed. */
  function Record(last: map<string, real>, key: string, now: real, interval: real): (r: map<string, real>)
    ensures Admits(last, key, now, interval) ==> r.Keys == last.Keys + {key} && r[key] == now
    ensures !Admits(last, key, now, interval) ==> r == last
    ensures key in r
    ensures forall k :: k in last && k != key ==> k in r && r[k] == last[k]
  {
    if Admits(last, key, now, interval) then last[key := now] else last
  }

  /**
   * After an admission at `t`, the same key is admitted again at `t2` iff
   * strictly more than `interval` seconds have elapsed; every other key is
   * admitted exactly as before.
   */
  lemma AdmitsAfterStamp(last: map<string, real>, key: string, t: real, t2: real, interval: real)
    ensures Admits(last[key := t], key, t2, interval) <==> t2 - t > interval
    ensures forall k :: k != key ==> (Admits(last[key := t], k, t2, interval) <==> Admits(last, k, t2, interval))
  {
  }

  /**
   * The throttle cycle for one key: admitted on the first call, suppressed
   * half an interval later, admitted again once the interval has been
   * exceeded.
   */
  lemma ThrottleCycle(last: map<string, real>, key: string, t: real, interval: real, eps: real)
    requires key !in last && interval > 0.0 && eps > 0.0
    ensures Admits(last, key, t, interval)
    ensures var m1 := Record(last, key, t, interval);
            !Admits(m1, key, t + interval / 2.0, interval)
            && Record(m1, key, t + interval / 2.0, interval) == m1
            && Admits(m1, key, t + interval + eps, interval)
  {
    var m1 := Record(last, key, t, interval);
    assert m1 == last[key := t];
    AdmitsAfterStamp(last, key, t, t + interval / 2.0, interval);
    AdmitsAfterStamp(last, key, t, t + interval + eps, interval);
  }
}
