/**
 * The decision logic of `CheckQuota` in freegeoip/utils.py: a fixed-window
 * rate limiter in front of a request handler.
 *
 * For a caller at address `ip` the wrapper forms the key "ip:" followed by
 * the decimal integer of the address, increments that key's counter in a
 * shared store, arms the counter's time-to-live only when the increment
 * created it (count 1), and otherwise rejects the call when the count exceeds
 * the configured maximum. The handler runs only for calls not rejected.
 *
 * The shared store (Redis) is a map from keys to counters. Its `INCR` is
 * atomic by assumption; the passing of wall-clock time is the explicit step
 * `Lapse`, which deletes a key whose time-to-live is armed.
 */
module Quota {
  import opened Wrappers
  import opened AddressCodec
  import Decimal

  /** One counter of the store: its value and the time-to-live `EXPIRE` armed on it, if any. */
  datatype Counter = Counter(count: nat, ttl: Option<nat>)

  type Store = map<string, Counter>

  /** A positive number of seconds. */
  type Seconds = n: int | n > 0 witness 1

  /** `self.settings.expire` (the window, in seconds) and `self.settings.max_requests`. */
  datatype Settings = Settings(expire: Seconds, maxRequests: int)

  datatype Decision = Allowed | Rejected

  /** The store after one call and the call's decision. */
  datatype Step = Step(store: Store, decision: Decision)

  /** What the wrapped request answers. */
  datatype Response<T> =
    | BadAddress(error: AddressError)   // `ip2uint32` raised: no quota decision was made
    | Forbidden                         // `HTTPError(403)`: over quota
    | Served(value: T)                  // the wrapped handler ran

  datatype Outcome<T> = Outcome(store: Store, response: Response<T>)

  // ---------------------------------------------------------------------------
  // Keys
  // ---------------------------------------------------------------------------

  /** `"ip:%s" % ip2uint32(remote_ip)`. */
  function QuotaKey(ip: bv32): (k: string)
    ensures |k| > 3 && k[..3] == "ip:"
    ensures Decimal.IsCanonical(k[3..]) && Decimal.Value(k[3..]) == ip as int
  {
    "ip:" + Decimal.Digits(ip as int)
  }

  lemma IntOfBv32Injective(x: bv32, y: bv32)
    requires x != y
    ensures x as int != y as int
  {
    assert (x as int) as bv32 == x;
    assert (y as int) as bv32 == y;
  }

  /** Distinct numbers give distinct keys: the numeral follows a fixed prefix. */
  lemma NumeralKeyInjective(m: nat, n: nat)
    requires m != n
    ensures "ip:" + Decimal.Digits(m) != "ip:" + Decimal.Digits(n)
  {
    Decimal.DigitsInjective(m, n);
    assert ("ip:" + Decimal.Digits(m))[3..] == Decimal.Digits(m);
    assert ("ip:" + Decimal.Digits(n))[3..] == Decimal.Digits(n);
  }

  /** Distinct addresses never share a counter. */
  lemma QuotaKeyInjective(ip1: bv32, ip2: bv32)
    requires ip1 != ip2
    ensures QuotaKey(ip1) != QuotaKey(ip2)
  {
    IntOfBv32Injective(ip1, ip2);
    NumeralKeyInjective(ip1 as int, ip2 as int);
  }

  /** Two canonical dotted quads share a counter only when they are the same text. */
  lemma TextKeysDistinct(s1: string, s2: string)
    requires Ip2Uint32(s1).Success? && Ip2Uint32(s2).Success?
    requires s1 != s2
    ensures QuotaKey(Ip2Uint32(s1).value) != QuotaKey(Ip2Uint32(s2).value)
  {
    Ip2Uint32Injective(s1, s2);
    QuotaKeyInjective(Ip2Uint32(s1).value, Ip2Uint32(s2).value);
  }

  // ---------------------------------------------------------------------------
  // The counter store
  // ---------------------------------------------------------------------------

  /** The count stored under `key`; a missing key counts as 0, as `INCR` treats it. */
  function Count(store: Store, key: string): nat {
    if key in store then store[key].count else 0
  }

  /** Every key other than `key` holds the same counter in both stores. */
  predicate SameElsewhere(store: Store, store': Store, key: string) {
    && (forall k :: k in store && k != key ==> k in store' && store'[k] == store[k])
    && (forall k :: k in store' && k != key ==> k in store)
  }

  /** Redis `INCR`: add one to the counter, creating it at 1 without a time-to-live. */
  function Incr(store: Store, key: string): (r: (Store, nat))
    ensures key in r.0 && r.0[key].count == r.1
    ensures r.1 == Count(store, key) + 1
    ensures key in store ==> r.0[key].ttl == store[key].ttl
    ensures key !in store ==> r.0[key].ttl == None
    ensures SameElsewhere(store, r.0, key)
  {
    if key in store then
      (store[key := store[key].(count := store[key].count + 1)], store[key].count + 1)
    else
      (store[key := Counter(1, None)], 1)
  }

  /**
   * Redis `EXPIRE`: arm the time-to-live of an existing counter; a timeout of
   * zero or less deletes the key at once.
   */
  function SetExpiry(store: Store, key: string, seconds: int): (r: Store)
    ensures key in store && seconds > 0 ==> key in r && r[key] == store[key].(ttl := Some(seconds))
    ensures key in store && seconds <= 0 ==> key !in r
    ensures key !in store ==> r == store
    ensures SameElsewhere(store, r, key)
  {
    if key !in store then store
    else if seconds <= 0 then store - {key}
    else store[key := store[key].(ttl := Some(seconds))]
  }

  /** The time-to-live of `key` runs out: the store deletes it if one was armed. */
  function Lapse(store: Store, key: string): (r: Store)
    ensures key in store && store[key].ttl.Some? ==> key !in r
    ensures key in store && store[key].ttl.None? ==> r == store
    ensures key !in store ==> r == store
    ensures SameElsewhere(store, r, key)
  {
    if key in store && store[key].ttl.Some? then store - {key} else store
  }

  // ---------------------------------------------------------------------------
  // One call
  // ---------------------------------------------------------------------------

  /**
   * The quota decision for one call from `ip`: increment first, arm the TTL
   * when the counter was just created (that call is always admitted), and
   * otherwise reject when the new count is above the maximum.
   */
  function Admit(store: Store, settings: Settings, ip: bv32): (r: Step)
    // the increment happens whatever the decision
    ensures Count(r.store, QuotaKey(ip)) == Count(store, QuotaKey(ip)) + 1
    // rejected exactly when the counter already existed and the new count is over the maximum
    ensures r.decision == Rejected
            <==> Count(store, QuotaKey(ip)) > 0 && Count(store, QuotaKey(ip)) + 1 > settings.maxRequests
    // the first call of a window is admitted and starts the window
    ensures Count(store, QuotaKey(ip)) == 0
            ==> r.decision == Allowed && r.store[QuotaKey(ip)].ttl == Some(settings.expire)
    // later calls leave the window where it was
    ensures Count(store, QuotaKey(ip)) > 0
            ==> QuotaKey(ip) in store && r.store[QuotaKey(ip)].ttl == store[QuotaKey(ip)].ttl
    // no other counter changes
    ensures SameElsewhere(store, r.store, QuotaKey(ip))
  {
    var key := QuotaKey(ip);
    var (incremented, n) := Incr(store, key);
    if n == 1 then
      Step(SetExpiry(incremented, key, settings.expire), Allowed)
    else if n > settings.maxRequests then
      Step(incremented, Rejected)
    else
      Step(incremented, Allowed)
  }

  /**
   * `CheckQuota(method)` applied to one request from `remoteIp`: a malformed
   * address fails before the store is touched; otherwise the quota decision
   * is made and the handler runs only when the call is allowed.
   */
  function CheckQuota<T>(store: Store, settings: Settings, remoteIp: string, handler: () -> T): (r: Outcome<T>)
    ensures Ip2Uint32(remoteIp).Failure?
            ==> r == Outcome(store, BadAddress(Ip2Uint32(remoteIp).error))
    ensures Ip2Uint32(remoteIp).Success?
            ==> r.store == Admit(store, settings, Ip2Uint32(remoteIp).value).store
    ensures r.response.Served?
            <==> Ip2Uint32(remoteIp).Success?
                 && Admit(store, settings, Ip2Uint32(remoteIp).value).decision == Allowed
    ensures r.response.Forbidden?
            <==> Ip2Uint32(remoteIp).Success?
                 && Admit(store, settings, Ip2Uint32(remoteIp).value).decision == Rejected
    ensures r.response.BadAddress? <==> Ip2Uint32(remoteIp).Failure?
    ensures r.response.Served? ==> r.response.value == handler()
    ensures r.response.Forbidden?
            ==> Count(r.store, QuotaKey(Ip2Uint32(remoteIp).value))
                == Count(store, QuotaKey(Ip2Uint32(remoteIp).value)) + 1
  {
    match Ip2Uint32(remoteIp)
    case Failure(e) => Outcome(store, BadAddress(e))
    case Success(ip) =>
      var step := Admit(store, settings, ip);
      if step.decision == Rejected then Outcome(step.store, Forbidden)
      else Outcome(step.store, Served(handler()))
  }

  // ---------------------------------------------------------------------------
  // Sequences of calls
  // ---------------------------------------------------------------------------

  /** Calls from the addresses `ips`, one after another: the final store and every decision. */
  function Run(store: Store, settings: Settings, ips: seq<bv32>): (Store, seq<Decision>)
    decreases |ips|
  {
    if |ips| == 0 then (store, [])
    else
      var step := Admit(store, settings, ips[0]);
      var (final, decisions) := Run(step.store, settings, ips[1..]);
      (final, [step.decision] + decisions)
  }

  /** Every call yields exactly one decision. */
  lemma {:induction false} RunDecisionCount(store: Store, settings: Settings, ips: seq<bv32>)
    ensures |Run(store, settings, ips).1| == |ips|
    decreases |ips|
  {
    if |ips| > 0 {
      RunDecisionCount(Admit(store, settings, ips[0]).store, settings, ips[1..]);
    }
  }

  /** How many of the calls `ips` come from `x`. */
  function CallsFrom(ips: seq<bv32>, x: bv32): nat
    decreases |ips|
  {
    if |ips| == 0 then 0 else (if ips[0] == x then 1 else 0) + CallsFrom(ips[1..], x)
  }

  /**
   * Each address's counter grows by exactly the number of calls from that
   * address, rejected calls included: calls never touch another address's counter.
   */
  lemma {:induction false} RunCounts(store: Store, settings: Settings, ips: seq<bv32>, x: bv32)
    ensures Count(Run(store, settings, ips).0, QuotaKey(x)) == Count(store, QuotaKey(x)) + CallsFrom(ips, x)
    decreases |ips|
  {
    if |ips| > 0 {
      var step := Admit(store, settings, ips[0]);
      RunCounts(step.store, settings, ips[1..], x);
      if ips[0] != x {
        QuotaKeyInjective(ips[0], x);
      }
    }
  }

  /** `k` calls in a row from the same address. */
  function Repeat(ip: bv32, k: nat): (ips: seq<bv32>)
    ensures |ips| == k && forall i :: 0 <= i < k ==> ips[i] == ip
  {
    seq(k, _ => ip)
  }

  /**
   * Repeated calls from one address whose counter stands at `c`: call `i`
   * (from 0) sees count c + i + 1 and is rejected exactly when that count is
   * not 1 and is above the maximum; the counter ends at c + k.
   */
  lemma {:induction false} RepeatedCalls(store: Store, settings: Settings, ip: bv32, k: nat)
    ensures var (final, decisions) := Run(store, settings, Repeat(ip, k));
            && |decisions| == k
            && Count(final, QuotaKey(ip)) == Count(store, QuotaKey(ip)) + k
            && forall i :: 0 <= i < k ==>
                 (decisions[i] == Rejected
                  <==> Count(store, QuotaKey(ip)) + i + 1 != 1
                       && Count(store, QuotaKey(ip)) + i + 1 > settings.maxRequests)
    decreases k
  {
    if k > 0 {
      var step := Admit(store, settings, ip);
      RepeatedCalls(step.store, settings, ip, k - 1);
      assert Repeat(ip, k)[1..] == Repeat(ip, k - 1);
      var (rest, ds) := Run(step.store, settings, Repeat(ip, k - 1));
      var (final, decisions) := Run(store, settings, Repeat(ip, k));
      assert decisions == [step.decision] + ds;
      forall i | 1 <= i < k
        ensures decisions[i] == ds[i - 1]
      {
      }
    }
  }

  // ---------------------------------------------------------------------------
  // The window invariant
  // ---------------------------------------------------------------------------

  /** Every counter in the store has a time-to-live armed, so none outlives its window. */
  predicate AllArmed(store: Store) {
    forall k :: k in store ==> store[k].ttl.Some?
  }

  /** A call keeps every counter armed: the TTL goes on in the same call that creates the counter. */
  lemma AdmitKeepsArmed(store: Store, settings: Settings, ip: bv32)
    requires AllArmed(store)
    ensures AllArmed(Admit(store, settings, ip).store)
  {
  }

  lemma {:induction false} RunKeepsArmed(store: Store, settings: Settings, ips: seq<bv32>)
    requires AllArmed(store)
    ensures AllArmed(Run(store, settings, ips).0)
    decreases |ips|
  {
    if |ips| > 0 {
      AdmitKeepsArmed(store, settings, ips[0]);
      RunKeepsArmed(Admit(store, settings, ips[0]).store, settings, ips[1..]);
    }
  }

  lemma LapseKeepsArmed(store: Store, key: string)
    requires AllArmed(store)
    ensures AllArmed(Lapse(store, key))
  {
  }

  /**
   * Once a window has lapsed the address starts afresh: its next call is
   * admitted and its counter stands at 1 again.
   */
  lemma AfterLapseStartsAfresh(store: Store, settings: Settings, ip: bv32)
    requires AllArmed(store)
    ensures var r := Admit(Lapse(store, QuotaKey(ip)), settings, ip);
            r.decision == Allowed && Count(r.store, QuotaKey(ip)) == 1
  {
  }

  /**
   * With a maximum of 3, a fresh address gets three admitted calls and a
   * rejected fourth; after the window lapses its next call is admitted with count 1.
   */
  lemma ThreePerWindow(ip: bv32)
    ensures var settings := Settings(60, 3);
            var (store, decisions) := Run(map[], settings, Repeat(ip, 4));
            && decisions == [Allowed, Allowed, Allowed, Rejected]
            && var r := Admit(Lapse(store, QuotaKey(ip)), settings, ip);
               r.decision == Allowed && Count(r.store, QuotaKey(ip)) == 1
  {
    var settings := Settings(60, 3);
    RepeatedCalls(map[], settings, ip, 4);
    RunKeepsArmed(map[], settings, Repeat(ip, 4));
    var (store, decisions) := Run(map[], settings, Repeat(ip, 4));
    assert decisions[0] == Allowed && decisions[1] == Allowed;
    assert decisions[2] == Allowed && decisions[3] == Rejected;
    AfterLapseStartsAfresh(store, settings, ip);
  }
}
