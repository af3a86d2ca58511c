/** The log of subscriptions a client replays after it reconnects (`truefix-futu-client/src/client.rs`). */
module Replay {
  import opened Decimal

  datatype Security = Security(market: int, code: string)

  datatype Subscribe = Subscribe(
    securityList: seq<Security>,
    subTypeList: seq<int>,
    isSubscribe: bool,
    isRegPush: Option<bool>,
    regPushRehabTypeList: seq<int>,
    isFirstPush: Option<bool>,
    isUnsubAll: Option<bool>,
    isSubOrderBookDetail: Option<bool>,
    extendedTime: Option<bool>,
    session: Option<int>,
    header: Option<int>)

  function Normalize(r: Subscribe): Subscribe {
    r.(isSubscribe := true, isUnsubAll := None)
  }

  predicate SameKey(a: Subscribe, b: Subscribe) {
    && a.securityList == b.securityList
    && a.subTypeList == b.subTypeList
    && a.regPushRehabTypeList == b.regPushRehabTypeList
    && a.isSubOrderBookDetail == b.isSubOrderBookDetail
    && a.extendedTime == b.extendedTime
    && a.session == b.session
    && a.header == b.header
  }

  lemma NormalizeKeepsKey(a: Subscribe, b: Subscribe)
    ensures SameKey(a, Normalize(b)) == SameKey(Normalize(a), b) == SameKey(a, b) == SameKey(b, a)
  {
  }

  predicate ClearsAll(r: Subscribe) {
    r.isUnsubAll == Some(true)
  }

  /** The event adds an entry. */
  predicate Adds(r: Subscribe) {
    !ClearsAll(r) && r.isSubscribe
  }

  /** The event removes any entry of the given request's key. */
  predicate Removes(r: Subscribe, key: Subscribe) {
    ClearsAll(r) || SameKey(r, key)
  }

  // ------------------------------------------------------------ what the log should hold

  /** Event `i` is the last word on its key: it subscribes, and nothing later is about that key or about all. */
  ghost predicate Live(h: seq<Subscribe>, i: nat)
    requires i < |h|
  {
    Adds(h[i]) && forall j :: i < j < |h| ==> !Removes(h[j], h[i])
  }

  ghost predicate Increasing(s: seq<nat>) {
    forall j, k :: 0 <= j < k < |s| ==> s[j] < s[k]
  }

  /** The list names the live events, each once, in the order they happened. */
  ghost predicate IsLiveList(h: seq<Subscribe>, at: seq<nat>) {
    && (forall k :: 0 <= k < |at| ==> at[k] < |h| && Live(h, at[k]))
    && Increasing(at)
    && (forall i: nat :: i < |h| && Live(h, i) ==> i in at)
  }

  /** The log holds the normalised contents of the events listed. */
  ghost predicate Holds(log: seq<Subscribe>, h: seq<Subscribe>, at: seq<nat>)
    requires forall k :: 0 <= k < |at| ==> at[k] < |h|
  {
    |log| == |at| && forall k :: 0 <= k < |at| ==> log[k] == Normalize(h[at[k]])
  }

  // ------------------------------------------------------------ the log

  function Retain(log: seq<Subscribe>, key: Subscribe): seq<Subscribe> {
    if log == [] then [] else
    (if SameKey(log[0], key) then [] else [log[0]]) + Retain(log[1..], key)
  }

  function Remember(log: seq<Subscribe>, r: Subscribe): seq<Subscribe> {
    if ClearsAll(r) then [] else
    Retain(log, Normalize(r)) + if r.isSubscribe then [Normalize(r)] else []
  }

  function LogOf(h: seq<Subscribe>): seq<Subscribe> {
    if h == [] then [] else Remember(LogOf(h[..|h| - 1]), h[|h| - 1])
  }

  lemma RetainAt(log: seq<Subscribe>, i: nat, key: Subscribe)
    requires i < |log|
    ensures Retain(log[i..], key) == (if SameKey(log[i], key) then [] else [log[i]]) + Retain(log[i + 1..], key)
  {
    hide SameKey;
    assert log[i..][1..] == log[i + 1..];
  }

  /** `Vec::retain`. */
  method RetainOthers(log: seq<Subscribe>, key: Subscribe) returns (r: seq<Subscribe>)
    ensures r == Retain(log, key)
  {
    hide SameKey;
    r := [];
    for i := 0 to |log|
      invariant r + Retain(log[i..], key) == Retain(log, key)
    {
      RetainAt(log, i, key);
      if !SameKey(log[i], key) {
        assert (r + [log[i]]) + Retain(log[i + 1..], key) == r + ([log[i]] + Retain(log[i + 1..], key));
        r := r + [log[i]];
      }
    }
  }

  class ReplayState {
    var quoteSubscriptions: seq<Subscribe>

    constructor ()
      ensures quoteSubscriptions == LogOf([])
    {
      quoteSubscriptions := [];
    }

    method RememberSubscription(request: Subscribe)
      modifies this
      ensures quoteSubscriptions == Remember(old(quoteSubscriptions), request)
    {
      if ClearsAll(request) {
        quoteSubscriptions := [];
        return;
      }
      var normalized := Normalize(request);
      var kept := RetainOthers(quoteSubscriptions, normalized);
      if request.isSubscribe {
        quoteSubscriptions := kept + [normalized];
      } else {
        quoteSubscriptions := kept;
      }
    }
  }

  /** After any history the log is exactly the live events: one entry a key, in order of subscribing. */
  method RememberAll(h: seq<Subscribe>) returns (state: ReplayState, ghost at: seq<nat>)
    ensures fresh(state) && IsLiveList(h, at) && Holds(state.quoteSubscriptions, h, at)
    ensures OnePerKey(state.quoteSubscriptions)
  {
    state := new ReplayState();
    for i := 0 to |h|
      invariant fresh(state) && state.quoteSubscriptions == LogOf(h[..i])
    {
      assert h[..i + 1][..i] == h[..i];
      state.RememberSubscription(h[i]);
    }
    assert h[..|h|] == h;
    at := LogIsLive(h);
    OneEntryPerKey(h);
  }

  // ------------------------------------------------------------ the log is the live events

  /** Of the listed events, those a further event of the given key leaves. */
  ghost function Spared(h: seq<Subscribe>, at: seq<nat>, key: Subscribe): (r: seq<nat>)
    requires forall k :: 0 <= k < |at| ==> at[k] < |h|
    ensures forall i :: i in r <==> i in at && !SameKey(h[i], key)
    ensures forall k :: 0 <= k < |r| ==> r[k] < |h|
  {
    if at == [] then [] else
    (if SameKey(h[at[0]], key) then [] else [at[0]]) + Spared(h, at[1..], key)
  }

  lemma IncreasingCons(x: nat, s: seq<nat>)
    requires Increasing(s) && forall y :: y in s ==> x < y
    ensures Increasing([x] + s)
  {
    var r := [x] + s;
    forall j, k | 0 <= j < k < |r| ensures r[j] < r[k] {
      assert r[k] == s[k - 1] && s[k - 1] in s && (j > 0 ==> r[j] == s[j - 1]);
    }
  }

  lemma IncreasingTail(s: seq<nat>)
    requires Increasing(s) && s != []
    ensures Increasing(s[1..]) && forall y :: y in s[1..] ==> s[0] < y
  {
  }

  lemma {:induction false} SparedIncreases(h: seq<Subscribe>, at: seq<nat>, key: Subscribe)
    requires Increasing(at) && forall k :: 0 <= k < |at| ==> at[k] < |h|
    ensures Increasing(Spared(h, at, key))
  {
    hide SameKey;
    hide Increasing;
    if at != [] {
      IncreasingTail(at);
      SparedIncreases(h, at[1..], key);
      var rest := Spared(h, at[1..], key);
      IncreasingCons(at[0], rest);
      assert [] + rest == rest;
    } else {
      assert Spared(h, at, key) == at;
    }
  }

  lemma {:induction false} RetainHolds(log: seq<Subscribe>, h: seq<Subscribe>, at: seq<nat>, key: Subscribe)
    requires forall k :: 0 <= k < |at| ==> at[k] < |h|
    requires Holds(log, h, at)
    ensures Holds(Retain(log, key), h, Spared(h, at, key))
  {
    hide Normalize;
    hide SameKey;
    if at != [] {
      assert Holds(log[1..], h, at[1..]);
      RetainHolds(log[1..], h, at[1..], key);
      NormalizeKeepsKey(h[at[0]], key);
    }
  }

  /** An event is live after one more iff that one does not remove it; the new one is live iff it adds. */
  lemma LiveSnoc(h: seq<Subscribe>, r: Subscribe, i: nat)
    requires i <= |h|
    ensures Live(h + [r], i) <==> if i == |h| then Adds(r) else Live(h, i) && !Removes(r, h[i])
  {
    var g := h + [r];
    assert g[|h|] == r;
    if i < |h| {
      assert forall j :: 0 <= j < |h| ==> g[j] == h[j];
      if Live(g, i) {
        assert !Removes(g[|h|], g[i]);
        assert forall j :: i < j < |h| ==> !Removes(g[j], g[i]);
      }
    }
  }

  /** Of the live events those spared stay live, and the new one is live if it adds. */
  lemma LiveAfter(h: seq<Subscribe>, at: seq<nat>, r: Subscribe)
    requires IsLiveList(h, at) && !ClearsAll(r)
    ensures IsLiveList(h + [r], Spared(h, at, Normalize(r)) + if r.isSubscribe then [|h|] else [])
  {
    hide SameKey;
    hide Normalize;
    hide Live;
    hide Spared;
    var g, key := h + [r], Normalize(r);
    forall i: nat | i <= |h| ensures Live(g, i) <==> if i == |h| then Adds(r) else Live(h, i) && !Removes(r, h[i]) {
      LiveSnoc(h, r, i);
    }
    var kept := Spared(h, at, key);
    var next := kept + if r.isSubscribe then [|h|] else [];
    SparedIncreases(h, at, key);
    forall k | 0 <= k < |kept| ensures kept[k] < |h| && Live(g, kept[k]) && next[k] == kept[k] {
      assert kept[k] in kept && kept[k] in at;
      NormalizeKeepsKey(h[kept[k]], r);
    }
    forall i: nat | i < |g| && Live(g, i) ensures i in next {
      if i < |h| {
        NormalizeKeepsKey(h[i], r);
        assert i in at && i in kept;
      } else {
        assert next[|kept|] == i;
      }
    }
  }

  lemma HoldsSnoc(log: seq<Subscribe>, h: seq<Subscribe>, at: seq<nat>, r: Subscribe)
    requires (forall k :: 0 <= k < |at| ==> at[k] < |h|) && Holds(log, h, at)
    ensures Holds(log, h + [r], at) && Holds(log + [Normalize(r)], h + [r], at + [|h|])
  {
    hide Normalize;
    assert (h + [r])[|h|] == r;
  }

  lemma RememberKeepsLive(log: seq<Subscribe>, h: seq<Subscribe>, at: seq<nat>, r: Subscribe) returns (next: seq<nat>)
    requires IsLiveList(h, at) && Holds(log, h, at)
    ensures IsLiveList(h + [r], next) && Holds(Remember(log, r), h + [r], next)
  {
    hide SameKey;
    hide Normalize;
    hide Retain;
    hide Spared;
    hide Live;
    if ClearsAll(r) {
      NoneLive(h, r);
      return [];
    }
    var key := Normalize(r);
    var kept, log' := Spared(h, at, key), Retain(log, key);
    LiveAfter(h, at, r);
    RetainHolds(log, h, at, key);
    HoldsSnoc(log', h, kept, r);
    next := kept + if r.isSubscribe then [|h|] else [];
    assert kept + [] == kept && log' + [] == log';
  }

  lemma NoneLive(h: seq<Subscribe>, r: Subscribe)
    requires ClearsAll(r)
    ensures IsLiveList(h + [r], [])
  {
    hide SameKey;
    var g := h + [r];
    forall i: nat | i < |g| ensures !Live(g, i) {
      LiveSnoc(h, r, i);
    }
  }

  lemma {:induction false} LogIsLive(h: seq<Subscribe>) returns (at: seq<nat>)
    ensures IsLiveList(h, at) && Holds(LogOf(h), h, at)
    decreases |h|
  {
    if h == [] {
      at := [];
    } else {
      var front := h[..|h| - 1];
      at := LogIsLive(front);
      at := RememberKeepsLive(LogOf(front), front, at, h[|h| - 1]);
      assert front + [h[|h| - 1]] == h;
    }
  }

  /** Two lists of live events are the same list, so the log is determined by the history alone. */
  lemma LiveListUnique(h: seq<Subscribe>, a: seq<nat>, b: seq<nat>)
    requires IsLiveList(h, a) && IsLiveList(h, b)
    ensures a == b
  {
    IncreasingUnique(a, b);
  }

  lemma {:induction false} IncreasingUnique(a: seq<nat>, b: seq<nat>)
    requires Increasing(a) && Increasing(b)
    requires forall i :: i in a <==> i in b
    ensures a == b
  {
    assert a != [] ==> a[0] in b;
    assert b != [] ==> b[0] in a;
    if a != [] {
      assert a[0] in b && b[0] in a;
      assert a[0] == b[0];
      forall i | i in a[1..] ensures i in b[1..] {
        assert i in b && i != b[0];
      }
      forall i | i in b[1..] ensures i in a[1..] {
        assert i in a && i != a[0];
      }
      IncreasingUnique(a[1..], b[1..]);
      assert a == [a[0]] + a[1..] && b == [b[0]] + b[1..];
    }
  }

  ghost predicate OnePerKey(log: seq<Subscribe>) {
    forall j, k :: 0 <= j < k < |log| ==> !SameKey(log[j], log[k])
  }

  lemma OneEntryPerKey(h: seq<Subscribe>)
    ensures OnePerKey(LogOf(h))
  {
    var at := LogIsLive(h);
    forall j, k | 0 <= j < k < |at| ensures !SameKey(LogOf(h)[j], LogOf(h)[k]) {
      assert !Removes(h[at[k]], h[at[j]]);
    }
  }

  // ------------------------------------------------------------ what makes a key, and what is kept

  /** The two requests are alike in the seven fields that make a subscription. */
  ghost predicate Alike(a: Subscribe, b: Subscribe) {
    a == b.(isSubscribe := a.isSubscribe, isRegPush := a.isRegPush, isFirstPush := a.isFirstPush, isUnsubAll := a.isUnsubAll)
  }

  /** The entry is the request, turned into a plain subscription. */
  ghost predicate Resubscribes(entry: Subscribe, r: Subscribe) {
    && entry.isSubscribe && entry.isUnsubAll.None?
    && entry.(isSubscribe := r.isSubscribe, isUnsubAll := r.isUnsubAll) == r
  }

  lemma LogSnoc(h: seq<Subscribe>, r: Subscribe)
    ensures LogOf(h + [r]) == Remember(LogOf(h), r)
  {
    assert (h + [r])[..|h|] == h;
  }

  lemma {:induction false} RetainSnoc(log: seq<Subscribe>, last: Subscribe, key: Subscribe)
    ensures Retain(log + [last], key) == Retain(log, key) + if SameKey(last, key) then [] else [last]
  {
    hide SameKey;
    if log == [] {
      assert log + [last] == [last] && [last][1..] == [];
    } else {
      RetainSnoc(log[1..], last, key);
      assert (log + [last])[1..] == log[1..] + [last];
    }
  }

  lemma {:induction false} RetainedDiffer(log: seq<Subscribe>, key: Subscribe)
    ensures forall x :: x in Retain(log, key) <==> x in log && !SameKey(x, key)
  {
    hide SameKey;
    if log != [] {
      RetainedDiffer(log[1..], key);
      assert forall x :: x in log <==> x == log[0] || x in log[1..];
    }
  }

  /** A request to unsubscribe from all empties the log, after any history. */
  lemma UnsubscribeAllClears(h: seq<Subscribe>, r: Subscribe)
    requires r.isUnsubAll == Some(true)
    ensures LogOf(h + [r]) == []
  {
    LogSnoc(h, r);
  }

  /** After any history, of two requests to subscribe both stay in the log if they differ in one of the seven fields,
      with all else they asked for; if they do not, the later one alone stands for them. A request to unsubscribe takes
      exactly the entries alike out. */
  lemma WhatStays(h: seq<Subscribe>, a: Subscribe, b: Subscribe)
    requires a.isSubscribe && a.isUnsubAll != Some(true) && b.isUnsubAll != Some(true)
    ensures var before, log := LogOf(h + [a]), LogOf(h + [a] + [b]);
            && before != [] && Resubscribes(before[|before| - 1], a)
            && (b.isSubscribe ==> log != [] && Resubscribes(log[|log| - 1], b))
            && (b.isSubscribe && !Alike(a, b) ==> |log| >= 2 && log[|log| - 2] == before[|before| - 1])
            && (forall x :: x in (if b.isSubscribe then log[..|log| - 1] else log) <==> x in before && !Alike(x, b))
  {
    hide Retain;
    hide LogOf;
    hide Alike;
    hide SameKey;
    hide Normalize;
    hide Resubscribes;
    LogSnoc(h, a);
    LogSnoc(h + [a], b);
    NormalizedResubscribes(a);
    NormalizedResubscribes(b);
    AlikeIsKey(Normalize(a), b);
    AlikeNormalized(a, b);
    var kept := Retain(LogOf(h), Normalize(a));
    var before := kept + [Normalize(a)];
    RetainSnoc(kept, Normalize(a), Normalize(b));
    RetainedDiffer(before, Normalize(b));
    forall x ensures SameKey(x, Normalize(b)) <==> Alike(x, b) { AlikeIsKey(x, b); }
    var rest := Retain(before, Normalize(b));
    if b.isSubscribe { assert (rest + [Normalize(b)])[..|rest|] == rest; } else { assert rest + [] == rest; }
  }

  lemma NormalizedResubscribes(r: Subscribe)
    ensures Resubscribes(Normalize(r), r)
  {
  }

  lemma AlikeIsKey(x: Subscribe, r: Subscribe)
    ensures SameKey(x, Normalize(r)) <==> Alike(x, r)
  {
  }

  lemma AlikeNormalized(a: Subscribe, b: Subscribe)
    ensures Alike(Normalize(a), b) <==> Alike(a, b)
  {
  }

  // ------------------------------------------------------------ replaying

  lemma RetainAll(log: seq<Subscribe>, key: Subscribe)
    requires forall x :: x in log ==> !SameKey(x, key)
    ensures Retain(log, key) == log
  {
    hide SameKey;
  }

  lemma RememberNew(log: seq<Subscribe>, r: Subscribe)
    requires Normalize(r) == r && forall x :: x in log ==> !SameKey(x, r)
    ensures Remember(log, r) == log + [r]
  {
    hide SameKey;
    hide Retain;
    RetainAll(log, r);
  }

  lemma OnePerKeySnoc(front: seq<Subscribe>, last: Subscribe)
    requires OnePerKey(front + [last])
    ensures OnePerKey(front) && forall x :: x in front ==> !SameKey(x, last)
  {
    hide SameKey;
    var log := front + [last];
    assert log[|front|] == last && forall i :: 0 <= i < |front| ==> log[i] == front[i];
    forall x | x in front ensures !SameKey(x, last) {
      var i :| 0 <= i < |front| && front[i] == x;
      assert !SameKey(log[i], log[|front|]);
    }
  }

  /** A log of normalised entries with distinct keys, taken as a history, gives itself back. */
  lemma {:induction false} ReplayedLog(log: seq<Subscribe>)
    requires OnePerKey(log) && forall x :: x in log ==> Normalize(x) == x
    ensures LogOf(log) == log
    decreases |log|
  {
    hide SameKey;
    hide Normalize;
    hide Remember;
    hide OnePerKey;
    if log != [] {
      var front, last := log[..|log| - 1], log[|log| - 1];
      assert log == front + [last];
      assert last in log && forall x :: x in front ==> x in log;
      OnePerKeySnoc(front, last);
      ReplayedLog(front);
      RememberNew(front, last);
    }
  }

  /** The requests a reconnection sends, remembered afresh, give the log they were sent from. */
  lemma ReplayReproducesLog(h: seq<Subscribe>)
    ensures LogOf(LogOf(h)) == LogOf(h)
  {
    var at := LogIsLive(h);
    OneEntryPerKey(h);
    forall x | x in LogOf(h) ensures Normalize(x) == x {
      var k :| 0 <= k < |at| && LogOf(h)[k] == x;
    }
    ReplayedLog(LogOf(h));
  }
}
