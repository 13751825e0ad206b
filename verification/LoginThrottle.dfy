/** The login throttle: sliding windows in a map bounded by least recent use, proved
    to refine a plain log of failures. The clock is read before the lock is taken, so
    the instants of successive calls may step back; by how much within the window is what the
    claims allow for. */
module LoginThrottle {
  import opened Counting
  import opened Sorting

  // Hashed addresses and client addresses: opaque, only ever compared for equality.
  type Key = nat

  datatype Decision = Decision(blocked: bool, retryAfter: int)

  // ---------- the plain failure log ----------

  /** Failures later than the cutoff. */
  function Live(log: seq<real>, cutoff: real): seq<real> {
    if log == [] then []
    else
      var n := |log| - 1;
      var before := Live(log[..n], cutoff);
      if log[n] > cutoff then before + [log[n]] else before
  }

  function LogOf(log: map<Key, seq<real>>, key: Key): seq<real> {
    if key in log then log[key] else []
  }

  /** How long one key must wait by its log alone; 0 when it is below the threshold. */
  function Wait(log: seq<real>, now: real, attempts: int, window: int): int
    requires attempts >= 1
  {
    var live := Live(log, now - window as real);
    if |live| >= attempts then Larger(1, (live[0] + window as real - now).Floor) else 0
  }

  function Larger(a: int, b: int): int {
    if a >= b then a else b
  }

  /** The decision for several keys: blocked when one is, for the longest wait. */
  function PlainDecision(log: map<Key, seq<real>>, keys: seq<Key>, now: real, attempts: int, window: int): Decision
    requires attempts >= 1
  {
    if keys == [] then Decision(false, 0)
    else
      var n := |keys| - 1;
      var before := PlainDecision(log, keys[..n], now, attempts, window);
      var wait := Larger(before.retryAfter, Wait(LogOf(log, keys[n]), now, attempts, window));
      Decision(wait > 0, wait)
  }

  /** One more failure against every key of the list, as often as it is listed. */
  function Recorded(log: map<Key, seq<real>>, keys: seq<Key>, now: real): map<Key, seq<real>> {
    if keys == [] then log
    else
      var n := |keys| - 1;
      var before := Recorded(log, keys[..n], now);
      before[keys[n] := LogOf(before, keys[n]) + [now]]
  }

  /** What a failed sign-in adds: to every key as many failures, all of now, as it is listed. */
  lemma {:induction false} RecordedExactly(log: map<Key, seq<real>>, keys: seq<Key>, now: real, key: Key)
    ensures LogOf(Recorded(log, keys, now), key) == LogOf(log, key) + seq(Count(keys, key), i => now)
  {
    if keys == [] {
    } else {
      RecordedExactly(log, keys[..|keys|-1], now, key);
    }
  }

  ghost predicate Blocked(log: map<Key, seq<real>>, key: Key, now: real, attempts: int, window: int) {
    |Live(LogOf(log, key), now - window as real)| >= attempts
  }

  // ---------- the clock ----------

  function Greater(a: real, b: real): real {
    if a >= b then a else b
  }

  /** The latest of some readings. */
  function Peak(readings: seq<real>): real {
    if readings == [] then 0.0
    else
      var n := |readings| - 1;
      if n == 0 then readings[0] else Greater(Peak(readings[..n]), readings[n])
  }

  /** How far the clock has stepped back from a reading later than `since`. */
  function StepBack(readings: seq<real>, since: real): (r: real)
    ensures r >= 0.0
  {
    if |readings| <= 1 then 0.0
    else
      var n := |readings| - 1;
      var before, peak := StepBack(readings[..n], since), Peak(readings[..n]);
      if peak > since then Greater(before, peak - readings[n]) else before
  }

  lemma {:induction false} PeakIsLatest(readings: seq<real>)
    requires readings != []
    ensures Peak(readings) in readings && forall i :: 0 <= i < |readings| ==> readings[i] <= Peak(readings)
  {
    if |readings| == 1 {
    } else {
      PeakIsLatest(readings[..|readings|-1]);
    }
  }

  /** No reading later than `since` is followed by one that is lower by more, and one is by just
      that much when there was a step back at all. */
  lemma StepBackIsLargest(readings: seq<real>, since: real)
    ensures forall i, j :: 0 <= i < j < |readings| && readings[i] > since ==> readings[i] - readings[j] <= StepBack(readings, since)
    ensures StepBack(readings, since) > 0.0 ==> exists i, j :: StepsBack(readings, since, i, j)
  {
    StepBackIsBound(readings, since);
    if StepBack(readings, since) > 0.0 {
      var i, j := StepBackIsTaken(readings, since);
    }
  }

  /** The clock steps back from the one reading to the other, by the most it does. */
  ghost predicate StepsBack(readings: seq<real>, since: real, i: int, j: int) {
    0 <= i < j < |readings| && readings[i] > since && readings[i] - readings[j] == StepBack(readings, since)
  }

  lemma {:induction false} StepBackIsBound(readings: seq<real>, since: real)
    ensures forall i, j :: 0 <= i < j < |readings| && readings[i] > since ==> readings[i] - readings[j] <= StepBack(readings, since)
  {
    hide Peak;
    if |readings| <= 1 {
    } else {
      var n := |readings| - 1;
      var before := readings[..n];
      StepBackIsBound(before, since);
      PeakIsLatest(before);
      forall i, j | 0 <= i < j < |readings| && readings[i] > since
        ensures readings[i] - readings[j] <= StepBack(readings, since)
      {
        assert before[i] == readings[i] && (j < n ==> before[j] == readings[j]);
      }
    }
  }

  lemma {:induction false} StepBackIsTaken(readings: seq<real>, since: real) returns (i: int, j: int)
    requires StepBack(readings, since) > 0.0
    ensures StepsBack(readings, since, i, j)
  {
    hide Peak;
    var n := |readings| - 1;
    var before := readings[..n];
    if StepBack(before, since) == StepBack(readings, since) {
      i, j := StepBackIsTaken(before, since);
    } else {
      PeakIsLatest(before);
      i :| 0 <= i < n && before[i] == Peak(before);
      j := n;
    }
  }

  /** The entries of a log written under some readings of the clock: no entry is later than all of
      them, or than a later entry by more than the clock stepped back from it. */
  ghost predicate Ordered(log: seq<real>, readings: seq<real>) {
    && (forall i :: 0 <= i < |log| ==> log[i] <= Peak(readings))
    && (forall i, j, since :: 0 <= i < j < |log| && log[i] > since ==> log[i] <= log[j] + StepBack(readings, since))
  }

  lemma {:induction false} LiveSplits(log: seq<real>, cutoff: real, n: nat)
    requires n <= |log|
    requires forall i :: n <= i < |log| ==> log[i] > cutoff
    ensures |Live(log, cutoff)| >= |log| - n
    ensures (forall i :: 0 <= i < n ==> log[i] <= cutoff) ==> Live(log, cutoff) == log[n..]
  {
    if log == [] {
    } else {
      var l := |log| - 1;
      if n == |log| {
        LiveSplits(log[..l], cutoff, l);
      } else {
        LiveSplits(log[..l], cutoff, n);
        assert log[n..] == log[..l][n..] + [log[l]];
      }
    }
  }

  lemma {:induction false} LiveIsRecent(log: seq<real>, cutoff: real)
    ensures forall i :: 0 <= i < |Live(log, cutoff)| ==> Live(log, cutoff)[i] in log && Live(log, cutoff)[i] > cutoff
  {
    if log == [] {
    } else {
      LiveIsRecent(log[..|log|-1], cutoff);
    }
  }

  lemma {:induction false} LiveIsLate(log: seq<real>, cutoff: real, n: nat)
    requires n <= |log|
    requires forall i :: 0 <= i < n ==> log[i] <= cutoff
    ensures |Live(log, cutoff)| <= |log| - n
  {
    if |log| > n {
      LiveIsLate(log[..|log|-1], cutoff, n);
    } else if log != [] {
      LiveIsLate(log[..|log|-1], cutoff, n - 1);
    }
  }

  /** A wait is at least one second, and at most the window and the largest step back from a
      reading inside it. */
  lemma WaitBounds(log: seq<real>, readings: seq<real>, attempts: int, window: int)
    requires attempts >= 1 && window >= 1 && readings != [] && Ordered(log, readings)
    ensures var now := readings[|readings|-1];
      var w, skew := Wait(log, now, attempts, window), StepBack(readings, now - window as real);
      if |Live(log, now - window as real)| >= attempts then 1 <= w && w as real <= window as real + skew else w == 0
  {
    var now := readings[|readings|-1];
    LiveIsRecent(log, now - window as real);
    PeakIsNear(readings, window);
    hide Peak, StepBack;
  }

  /** The n-th entry of a log is the first later than the cutoff. */
  ghost predicate FirstLive(log: seq<real>, cutoff: real, n: nat) {
    n < |log| && log[n] > cutoff && forall i :: 0 <= i < n ==> log[i] <= cutoff
  }

  lemma {:induction false} LiveStarts(log: seq<real>, cutoff: real, n: nat)
    requires FirstLive(log, cutoff, n)
    ensures Live(log, cutoff) != [] && Live(log, cutoff)[0] == log[n]
  {
    if n == |log| - 1 {
      LiveIsLate(log[..n], cutoff, n);
    } else {
      LiveStarts(log[..|log|-1], cutoff, n);
    }
  }

  /** A blocked key waits the whole seconds until its first live failure leaves the window, and
      never less than one. */
  lemma WaitExactly(log: seq<real>, now: real, attempts: int, window: int, n: nat)
    requires attempts >= 1 && FirstLive(log, now - window as real, n) && |Live(log, now - window as real)| >= attempts
    ensures var w, remaining := Wait(log, now, attempts, window), log[n] + window as real - now;
      if remaining < 2.0 then w == 1 else w as real <= remaining < (w + 1) as real
  {
    LiveStarts(log, now - window as real, n);
  }

  /** The latest reading is at most a step back from inside the window ahead of the last one. */
  lemma PeakIsNear(readings: seq<real>, window: int)
    requires readings != [] && window >= 0
    ensures var now := readings[|readings|-1];
      now <= Peak(readings) <= now + StepBack(readings, now - window as real)
  {
  }

  /** A step back does lengthen a wait: one failure, and a check read a second and a half
      earlier, ask for two seconds of a one-second window. */
  lemma StepBackLengthensWait()
    ensures Ordered([2.0], [2.0, 0.5]) && Wait([2.0], 0.5, 1, 1) == 2
  {
    var log, readings := [2.0], [2.0, 0.5];
    assert log[..0] == [] && readings[..1] == [2.0];
    assert Live(log, -0.5) == [2.0];
  }

  /** The plain log blocks exactly when one of the keys has enough live failures. */
  lemma {:induction false} PlainDecisionBlocks(log: map<Key, seq<real>>, keys: seq<Key>, readings: seq<real>, attempts: int, window: int)
    requires attempts >= 1 && window >= 1 && readings != []
    requires forall key: Key :: Ordered(LogOf(log, key), readings)
    ensures var now := readings[|readings|-1];
      var d := PlainDecision(log, keys, now, attempts, window);
      && (d.blocked <==> exists key :: key in keys && Blocked(log, key, now, attempts, window))
      && (if d.blocked then 1 <= d.retryAfter && d.retryAfter as real <= window as real + StepBack(readings, now - window as real)
          else d.retryAfter == 0)
  {
    hide Live, Wait, Ordered, StepBack;
    if keys == [] {
    } else {
      var n, now := |keys| - 1, readings[|readings|-1];
      PlainDecisionBlocks(log, keys[..n], readings, attempts, window);
      WaitBounds(LogOf(log, keys[n]), readings, attempts, window);
      assert keys == keys[..n] + [keys[n]];
      var d := PlainDecision(log, keys, now, attempts, window);
      if d.blocked && !PlainDecision(log, keys[..n], now, attempts, window).blocked {
        assert keys[n] in keys && Blocked(log, keys[n], now, attempts, window);
      }
    }
  }

  // ---------- recency of use ----------

  /** When a key was last touched; -1 when never. */
  function LastTouch(touched: seq<Key>, key: Key): (i: int)
    ensures -1 <= i < |touched|
    ensures i >= 0 <==> key in touched
  {
    if touched == [] then -1
    else
      var n := |touched| - 1;
      assert touched == touched[..n] + [touched[n]];
      if touched[n] == key then n else LastTouch(touched[..n], key)
  }

  function TouchedAfter(touched: seq<Key>, key: Key): set<Key> {
    set x | x in touched && LastTouch(touched, x) > LastTouch(touched, key)
  }

  ghost predicate ByRecency(order: seq<Key>, touched: seq<Key>) {
    && (forall i :: 0 <= i < |order| ==> order[i] in touched)
    && (forall i, j :: 0 <= i < j < |order| ==> LastTouch(touched, order[i]) < LastTouch(touched, order[j]))
  }

  function Without(order: seq<Key>, key: Key): (r: seq<Key>)
    ensures forall x :: x in r <==> x in order && x != key
    ensures |r| <= |order|
  {
    if order == [] then []
    else
      var n := |order| - 1;
      assert order == order[..n] + [order[n]];
      if order[n] == key then Without(order[..n], key) else Without(order[..n], key) + [order[n]]
  }

  /** The order without some keys, the others where they were. */
  function WithoutAll(order: seq<Key>, keys: seq<Key>): seq<Key> {
    if order == [] then []
    else
      var n := |order| - 1;
      WithoutAll(order[..n], keys) + (if order[n] in keys then [] else [order[n]])
  }

  lemma {:induction false} WithoutNone(order: seq<Key>)
    ensures WithoutAll(order, []) == order
  {
    if order == [] {
    } else {
      WithoutNone(order[..|order|-1]);
    }
  }

  lemma {:induction false} WithoutAllHolds(order: seq<Key>, keys: seq<Key>, x: Key)
    ensures x in WithoutAll(order, keys) <==> x in order && x !in keys
  {
    if order == [] {
    } else {
      var n := |order| - 1;
      assert order == order[..n] + [order[n]];
      WithoutAllHolds(order[..n], keys, x);
    }
  }

  lemma {:induction false} WithoutOneMore(order: seq<Key>, keys: seq<Key>, key: Key)
    ensures Without(WithoutAll(order, keys), key) == WithoutAll(order, keys + [key])
  {
    if order == [] {
    } else {
      var n := |order| - 1;
      WithoutOneMore(order[..n], keys, key);
      var rest := WithoutAll(order[..n], keys);
      assert (rest + [order[n]])[..|rest|] == rest && rest + [] == rest;
    }
  }

  lemma {:induction false} WithoutKeepsRecency(order: seq<Key>, key: Key, touched: seq<Key>)
    requires ByRecency(order, touched)
    ensures ByRecency(Without(order, key), touched)
  {
    hide LastTouch;
    if order == [] {
    } else {
      var n := |order| - 1;
      WithoutKeepsRecency(order[..n], key, touched);
      var rest := Without(order[..n], key);
      forall j | 0 <= j < |rest| ensures LastTouch(touched, rest[j]) < LastTouch(touched, order[n]) {
        assert rest[j] in order[..n];
        var i :| 0 <= i < n && order[i] == rest[j];
      }
    }
  }

  lemma RestKeepsRecency(order: seq<Key>, touched: seq<Key>)
    requires order != [] && ByRecency(order, touched)
    ensures ByRecency(order[1..], touched) && order[0] !in order[1..]
  {
  }

  lemma RecencyIsDistinct(order: seq<Key>, touched: seq<Key>)
    requires ByRecency(order, touched)
    ensures Distinct(order)
  {
  }

  /** Touching a key puts it last. */
  lemma TouchKeepsRecency(order: seq<Key>, key: Key, touched: seq<Key>)
    requires ByRecency(order, touched)
    ensures ByRecency(Without(order, key) + [key], touched + [key])
  {
    WithoutKeepsRecency(order, key, touched);
    var rest, more := Without(order, key), touched + [key];
    assert more[..|touched|] == touched;
    forall x | x in rest ensures LastTouch(more, x) == LastTouch(touched, x) && x in more {
    }
    forall i | 0 <= i < |rest| ensures rest[i] in rest {
    }
  }

  /** Whoever is evicted first has at least as many later-touched keys as the map
      holds besides it. */
  lemma OldestIsLeastRecent(order: seq<Key>, touched: seq<Key>)
    requires order != [] && ByRecency(order, touched)
    ensures |TouchedAfter(touched, order[0])| >= |order| - 1
  {
    var rest := order[1..];
    assert Distinct(rest) by { RecencyIsDistinct(order, touched); }
    SetOfSeq(rest);
    var others := set x | x in rest;
    forall x | x in others ensures x in TouchedAfter(touched, order[0]) {
      var i :| 0 <= i < |rest| && rest[i] == x;
      assert order[i + 1] == x;
    }
    SubsetCardinality(others, TouchedAfter(touched, order[0]));
  }

  // ---------- one bucket ----------

  /** A bucket is the tail of its key's log, and nothing dropped is later than `reach`. */
  ghost predicate Tail(whole: seq<real>, kept: seq<real>, reach: real, readings: seq<real>) {
    && Ordered(whole, readings)
    && |kept| <= |whole|
    && whole[|whole| - |kept|..] == kept
    && forall i :: 0 <= i < |whole| - |kept| ==> whole[i] <= reach
  }

  function DropOld(kept: seq<real>, cutoff: real): seq<real> {
    if kept == [] || kept[0] > cutoff then kept else DropOld(kept[1..], cutoff)
  }

  /** What a pruned bucket tells of its log: no more failures than were live a step back
      earlier, no fewer than will be live a step back later if all that was dropped had left
      that window, and the live ones themselves if the clock never stepped back. */
  ghost predicate Faithful(kept: seq<real>, whole: seq<real>, remembered: bool, now: real, skew: real, window: int) {
    var cutoff := now - window as real;
    && (kept != [] ==> cutoff < kept[0] <= now + skew)
    && |kept| <= |Live(whole, cutoff - skew)|
    && (remembered ==> |kept| >= |Live(whole, cutoff + skew)| && (skew == 0.0 ==> kept == Live(whole, cutoff)))
  }

  lemma {:induction false} DropKeepsTail(whole: seq<real>, kept: seq<real>, reach: real, readings: seq<real>, now: real, window: int)
    requires Tail(whole, kept, reach, readings) && readings != [] && window >= 0 && readings[|readings|-1] == now
    requires reach >= Peak(readings) - window as real
    ensures var rest, cutoff := DropOld(kept, now - window as real), now - window as real;
      var skew := StepBack(readings, cutoff);
      Tail(whole, rest, reach, readings) && Faithful(rest, whole, reach <= cutoff + skew, now, skew, window)
    decreases |kept|
  {
    var cutoff := now - window as real;
    if kept == [] || kept[0] > cutoff {
      TailIsLive(whole, kept, reach, readings, now, window);
    } else {
      PeakIsNear(readings, window);
      hide Live, Faithful, Peak, StepBack;
      assert whole[|whole| - |kept|] == kept[0];
      assert whole[|whole| - |kept| + 1..] == kept[1..];
      DropKeepsTail(whole, kept[1..], reach, readings, now, window);
    }
  }

  lemma TailIsLive(whole: seq<real>, kept: seq<real>, reach: real, readings: seq<real>, now: real, window: int)
    requires Tail(whole, kept, reach, readings) && readings != [] && window >= 0 && readings[|readings|-1] == now
    requires kept == [] || kept[0] > now - window as real
    ensures var skew := StepBack(readings, now - window as real);
      Faithful(kept, whole, reach <= now - window as real + skew, now, skew, window)
  {
    var n, cutoff := |whole| - |kept|, now - window as real;
    var skew := StepBack(readings, cutoff);
    PeakIsNear(readings, window);
    KeptIsNear(whole, n, readings, cutoff);
    hide Live, Ordered, StepBack;
    assert forall i :: n <= i < |whole| ==> whole[i] == kept[i - n];
    LiveSplits(whole, cutoff - skew, n);
    if reach <= cutoff + skew {
      LiveIsLate(whole, cutoff + skew, n);
    }
  }

  /** What follows an entry inside the window is at most a step back outside it. */
  lemma KeptIsNear(whole: seq<real>, n: nat, readings: seq<real>, since: real)
    requires Ordered(whole, readings) && (n < |whole| ==> whole[n] > since)
    ensures forall i :: n <= i < |whole| ==> since - StepBack(readings, since) < whole[i] <= Peak(readings)
  {
    hide Peak, StepBack;
    forall i | n < i < |whole| ensures since - StepBack(readings, since) < whole[i] {
      assert whole[n] <= whole[i] + StepBack(readings, since);
    }
  }

  /** What an eviction leaves of a bucket. */
  lemma NothingKept(whole: seq<real>, kept: seq<real>, reach: real, readings: seq<real>)
    requires Tail(whole, kept, reach, readings)
    ensures Tail(whole, [], Peak(readings), readings)
  {
    hide Peak, StepBack;
  }

  lemma AppendKeepsTail(whole: seq<real>, kept: seq<real>, reach: real, readings: seq<real>, now: real)
    requires Tail(whole, kept, reach, readings) && readings != [] && readings[|readings|-1] == now
    ensures Tail(whole + [now], kept + [now], reach, readings)
  {
    AppendStaysOrdered(whole, readings, now);
    hide Ordered;
  }

  lemma AppendStaysOrdered(whole: seq<real>, readings: seq<real>, now: real)
    requires Ordered(whole, readings) && readings != [] && readings[|readings|-1] == now
    ensures Ordered(whole + [now], readings)
  {
    PeakIsNear(readings, 0);
    forall i, since | 0 <= i < |whole| && whole[i] > since ensures whole[i] <= now + StepBack(readings, since) {
      LastStepBack(readings, whole[i], since);
    }
    hide Peak, StepBack;
  }

  lemma LastStepBack(readings: seq<real>, v: real, since: real)
    requires readings != [] && since < v <= Peak(readings)
    ensures v <= readings[|readings|-1] + StepBack(readings, since)
  {
  }

  /** Another reading takes nothing back. */
  lemma ReadingsGrow(readings: seq<real>, now: real, since: real)
    requires readings != []
    ensures Peak(readings) <= Peak(readings + [now])
    ensures StepBack(readings, since) <= StepBack(readings + [now], since)
  {
    assert (readings + [now])[..|readings|] == readings;
  }

  lemma ReadStaysTail(whole: seq<real>, kept: seq<real>, reach: real, reach': real, readings: seq<real>, now: real)
    requires Tail(whole, kept, reach, readings) && readings != [] && reach <= reach'
    ensures Tail(whole, kept, reach', readings + [now])
  {
    hide Peak, StepBack;
    forall since {
      ReadingsGrow(readings, now, since);
    }
    forall i, j, since | 0 <= i < j < |whole| && whole[i] > since
      ensures whole[i] <= whole[j] + StepBack(readings + [now], since)
    {
      assert whole[i] <= whole[j] + StepBack(readings, since);
    }
  }

  // ---------- the whole memory ----------

  /** The ordered map of buckets, and what it stands for: every failure since a key
      was last cleared, when each key evicted since then last was, every touch so far and
      every reading of the clock. */
  datatype Memory = Memory(
    order: seq<Key>, attempts: map<Key, seq<real>>,
    log: map<Key, seq<real>>, lost: map<Key, real>, touched: seq<Key>, readings: seq<real>)

  /** The key was not evicted after the cutoff. */
  ghost predicate Remembered(lost: map<Key, real>, key: Key, cutoff: real) {
    key in lost ==> lost[key] <= cutoff
  }

  ghost function Reach(lost: map<Key, real>, key: Key, cutoff: real): (r: real)
    ensures r >= cutoff
    ensures r == cutoff <==> Remembered(lost, key, cutoff)
  {
    if Remembered(lost, key, cutoff) then cutoff else lost[key]
  }

  ghost predicate Tracks(m: Memory, key: Key, window: int) {
    Tail(LogOf(m.log, key), LogOf(m.attempts, key), Reach(m.lost, key, Peak(m.readings) - window as real), m.readings)
  }

  ghost predicate Consistent(m: Memory, window: int) {
    && m.readings != []
    && (forall key :: key in m.order <==> key in m.attempts)
    && ByRecency(m.order, m.touched)
    && (forall key: Key :: Tracks(m, key, window))
  }

  /** The call under way read this instant. */
  ghost predicate Current(m: Memory, now: real) {
    m.readings != [] && m.readings[|m.readings|-1] == now
  }

  /** The largest step back from a reading inside the window. */
  ghost function Skew(m: Memory, now: real, window: int): real {
    StepBack(m.readings, now - window as real)
  }

  /** A clock reading arrives, later than all before it or a step back. */
  ghost function Read(m: Memory, now: real): Memory {
    m.(readings := m.readings + [now])
  }

  lemma ReadTracks(m: Memory, now: real, key: Key, window: int)
    requires m.readings != [] && Tracks(m, key, window)
    ensures Tracks(Read(m, now), key, window)
  {
    hide Tail, Peak;
    ReadingsGrow(m.readings, now, 0.0);
    ReadStaysTail(LogOf(m.log, key), LogOf(m.attempts, key), Reach(m.lost, key, Peak(m.readings) - window as real),
                  Reach(m.lost, key, Peak(m.readings + [now]) - window as real), m.readings, now);
  }

  lemma ReadKeepsConsistent(m: Memory, now: real, window: int)
    requires Consistent(m, window)
    ensures Consistent(Read(m, now), window) && Current(Read(m, now), now)
  {
    hide ByRecency, Tracks;
    forall key: Key ensures Tracks(Read(m, now), key, window) {
      ReadTracks(m, now, key, window);
    }
  }

  /** One key pruned and made the most recent. */
  function Pruned(m: Memory, key: Key, now: real, window: int): Memory {
    m.(order := Without(m.order, key) + [key],
       attempts := m.attempts[key := DropOld(LogOf(m.attempts, key), now - window as real)],
       touched := m.touched + [key])
  }

  lemma PrunedTracks(m: Memory, key: Key, now: real, window: int)
    requires Tracks(m, key, window) && Current(m, now) && window >= 0
    ensures Tracks(Pruned(m, key, now, window), key, window)
    ensures Faithful(Pruned(m, key, now, window).attempts[key], LogOf(m.log, key),
                     Remembered(m.lost, key, now - window as real + Skew(m, now, window)), now, Skew(m, now, window), window)
  {
    PeakIsNear(m.readings, window);
    hide Peak, StepBack, Tail, DropOld, Faithful;
    DropKeepsTail(LogOf(m.log, key), LogOf(m.attempts, key), Reach(m.lost, key, Peak(m.readings) - window as real),
                  m.readings, now, window);
  }

  lemma PrunedOthersTrack(m: Memory, key: Key, now: real, other: Key, window: int)
    requires Tracks(m, other, window) && other != key
    ensures Tracks(Pruned(m, key, now, window), other, window)
  {
    hide Tail, DropOld;
  }

  lemma PruneKeepsConsistent(m: Memory, key: Key, now: real, window: int)
    requires Consistent(m, window) && Current(m, now) && window >= 0
    ensures Consistent(Pruned(m, key, now, window), window)
    ensures Faithful(Pruned(m, key, now, window).attempts[key], LogOf(m.log, key),
                     Remembered(m.lost, key, now - window as real + Skew(m, now, window)), now, Skew(m, now, window), window)
  {
    hide Tracks, ByRecency, DropOld, Faithful, Remembered, Skew;
    PrunedTracks(m, key, now, window);
    TouchKeepsRecency(m.order, key, m.touched);
    forall other: Key ensures Tracks(Pruned(m, key, now, window), other, window) {
      if other != key {
        PrunedOthersTrack(m, key, now, other, window);
      }
    }
  }

  /** One more failure on a key, in its bucket and in its log. */
  function Failed(m: Memory, key: Key, now: real): Memory
    requires key in m.attempts
  {
    m.(attempts := m.attempts[key := m.attempts[key] + [now]], log := m.log[key := LogOf(m.log, key) + [now]])
  }

  lemma FailureTracks(m: Memory, key: Key, now: real, other: Key, window: int)
    requires Tracks(m, key, window) && Tracks(m, other, window) && key in m.attempts && Current(m, now)
    ensures Tracks(Failed(m, key, now), other, window)
  {
    hide Tail;
    AppendKeepsTail(LogOf(m.log, key), m.attempts[key], Reach(m.lost, key, Peak(m.readings) - window as real), m.readings, now);
  }

  lemma FailureKeepsConsistent(m: Memory, key: Key, now: real, window: int)
    requires Consistent(m, window) && key in m.attempts && Current(m, now)
    ensures Consistent(Failed(m, key, now), window)
  {
    hide Tracks, ByRecency;
    forall other: Key ensures Tracks(Failed(m, key, now), other, window) {
      FailureTracks(m, key, now, other, window);
    }
  }

  /** The least recently used key leaves the map; its log stays. */
  function Evicted(m: Memory): Memory
    requires m.order != []
  {
    m.(order := m.order[1..], attempts := m.attempts - {m.order[0]}, lost := m.lost[m.order[0] := Peak(m.readings)])
  }

  lemma EvictedTracks(m: Memory, key: Key, window: int)
    requires m.order != [] && Tracks(m, key, window) && window >= 0
    ensures Tracks(Evicted(m), key, window)
  {
    hide Tail, Peak, StepBack;
    if key == m.order[0] {
      NothingKept(LogOf(m.log, key), LogOf(m.attempts, key), Reach(m.lost, key, Peak(m.readings) - window as real), m.readings);
    }
  }

  lemma EvictionKeepsConsistent(m: Memory, window: int)
    requires Consistent(m, window) && m.order != [] && window >= 0
    ensures Consistent(Evicted(m), window)
    ensures m.order[0] !in m.order[1..]
    ensures |TouchedAfter(m.touched, m.order[0])| >= |m.order| - 1
  {
    hide Tracks, ByRecency, TouchedAfter;
    OldestIsLeastRecent(m.order, m.touched);
    RestKeepsRecency(m.order, m.touched);
    assert m.order == [m.order[0]] + m.order[1..];
    forall key: Key ensures Tracks(Evicted(m), key, window) {
      EvictedTracks(m, key, window);
    }
  }

  /** A key forgotten everywhere but in the record of touches. */
  function Cleared(m: Memory, key: Key): Memory {
    m.(order := Without(m.order, key), attempts := m.attempts - {key}, log := m.log - {key}, lost := m.lost - {key})
  }

  lemma ClearedTracks(m: Memory, key: Key, other: Key, window: int)
    requires Tracks(m, other, window)
    ensures Tracks(Cleared(m, key), other, window)
  {
    hide Tail;
    NothingLogged(Reach(Cleared(m, key).lost, other, Peak(m.readings) - window as real), m.readings);
  }

  lemma ClearKeepsConsistent(m: Memory, key: Key, window: int)
    requires Consistent(m, window)
    ensures Consistent(Cleared(m, key), window)
  {
    hide Tracks, ByRecency;
    WithoutKeepsRecency(m.order, key, m.touched);
    forall other: Key ensures Tracks(Cleared(m, key), other, window) {
      ClearedTracks(m, key, other, window);
    }
  }

  lemma NothingLogged(reach: real, readings: seq<real>)
    ensures Tail([], [], reach, readings)
  {
  }

  function Except<V>(m: map<Key, V>, keys: seq<Key>): map<Key, V> {
    map key | key in m && key !in keys :: m[key]
  }

  lemma ExceptOneMore<V>(m: map<Key, V>, keys: seq<Key>, key: Key)
    ensures Except(m, keys) - {key} == Except(m, keys + [key])
  {
    assert forall k :: k in keys + [key] <==> k in keys || k == key;
  }

  /** Several keys forgotten: the others keep their buckets and their order. */
  function ClearedAll(m: Memory, keys: seq<Key>): Memory {
    m.(order := WithoutAll(m.order, keys),
       attempts := Except(m.attempts, keys), log := Except(m.log, keys), lost := Except(m.lost, keys))
  }

  lemma ClearedNone(m: Memory)
    ensures ClearedAll(m, []) == m
  {
    WithoutNone(m.order);
  }

  lemma ClearedOneMore(m: Memory, keys: seq<Key>, key: Key)
    ensures Cleared(ClearedAll(m, keys), key) == ClearedAll(m, keys + [key])
  {
    hide WithoutAll, Except;
    WithoutOneMore(m.order, keys, key);
    ExceptOneMore(m.attempts, keys, key);
    ExceptOneMore(m.log, keys, key);
    ExceptOneMore(m.lost, keys, key);
  }

  function Trimmed(m: Memory, limit: nat): Memory
    decreases |m.order|
  {
    if |m.order| <= limit then m else Trimmed(Evicted(m), limit)
  }

  /** Whoever is lost in between is lost now, and behind at least `limit` later-touched keys. */
  ghost predicate Loses(m: Memory, t: Memory, limit: nat) {
    && m.lost.Keys <= t.lost.Keys
    && forall key :: key in t.lost ==>
         || (key in m.lost && t.lost[key] == m.lost[key])
         || (t.lost[key] == Peak(m.readings) && |TouchedAfter(m.touched, key)| >= limit)
  }

  /** Trimming touches nothing but the map and who was lost, keeps the most recent
      keys, and evicts only behind at least `limit` later-touched ones. */
  lemma {:induction false} TrimmedFacts(m: Memory, limit: nat, window: int)
    requires Consistent(m, window) && window >= 0
    ensures var t := Trimmed(m, limit);
      && Consistent(t, window)
      && t.log == m.log && t.touched == m.touched && t.readings == m.readings
      && |t.order| == (if |m.order| <= limit then |m.order| else limit)
      && t.order == m.order[|m.order| - |t.order|..]
      && Loses(m, t, limit)
    decreases |m.order|
  {
    hide Consistent, TouchedAfter;
    if |m.order| > limit {
      EvictionKeepsConsistent(m, window);
      TrimmedFacts(Evicted(m), limit, window);
    }
  }

  lemma LosesFrom(m: Memory, pruned: Memory, t: Memory, limit: nat)
    requires m.lost == pruned.lost && m.readings == pruned.readings && m.touched == pruned.touched && Loses(pruned, t, limit)
    ensures Loses(m, t, limit)
  {
  }

  // ---------- a check against the log ----------

  /** Enough failures still live a step back later, none of them lost to an eviction. */
  ghost predicate MustBlock(log: map<Key, seq<real>>, lost: map<Key, real>, key: Key, now: real, skew: real, attempts: int, window: int) {
    Remembered(lost, key, now + skew - window as real) && Blocked(log, key, now + skew, attempts, window)
  }

  /** What a check may claim after some keys: a wait within the window and a step back,
      blocking only on failures live a step back earlier, always on those of a remembered key
      still live a step back later, and the plain decision when there was no step back and
      every key is remembered. */
  ghost predicate Agrees(wait: int, log: map<Key, seq<real>>, keys: seq<Key>, lost: map<Key, real>, now: real, skew: real,
                         attempts: int, window: int)
    requires attempts >= 1
  {
    && 0 <= wait && wait as real <= window as real + skew
    && (wait > 0 ==> exists key :: key in keys && Blocked(log, key, now - skew, attempts, window))
    && (forall key :: key in keys && MustBlock(log, lost, key, now, skew, attempts, window) ==> wait > 0)
    && (skew == 0.0 && (forall key :: key in keys ==> Remembered(lost, key, now - window as real)) ==>
          Decision(wait > 0, wait) == PlainDecision(log, keys, now, attempts, window))
  }

  /** What one more key's bucket adds to the wait. */
  function WaitOf(kept: seq<real>, now: real, attempts: int, window: int): int
    requires attempts >= 1
  {
    if |kept| >= attempts then Larger(1, (kept[0] + window as real - now).Floor) else 0
  }

  /** One bucket against its log. */
  lemma BucketDecides(log: map<Key, seq<real>>, lost: map<Key, real>, now: real, skew: real, attempts: int, window: int,
                      key: Key, kept: seq<real>)
    requires attempts >= 1 && window >= 1 && skew >= 0.0
    requires Faithful(kept, LogOf(log, key), Remembered(lost, key, now - window as real + skew), now, skew, window)
    ensures var w := WaitOf(kept, now, attempts, window);
      && 0 <= w && w as real <= window as real + skew
      && (w > 0 ==> Blocked(log, key, now - skew, attempts, window))
      && (MustBlock(log, lost, key, now, skew, attempts, window) ==> w > 0)
      && (skew == 0.0 && Remembered(lost, key, now - window as real) ==> w == Wait(LogOf(log, key), now, attempts, window))
  {
    hide Live, Remembered;
  }

  lemma AgreesStep(wait: int, log: map<Key, seq<real>>, keys: seq<Key>, lost: map<Key, real>, now: real, skew: real,
                   attempts: int, window: int, key: Key, kept: seq<real>)
    requires attempts >= 1 && window >= 1 && skew >= 0.0 && Agrees(wait, log, keys, lost, now, skew, attempts, window)
    requires Faithful(kept, LogOf(log, key), Remembered(lost, key, now - window as real + skew), now, skew, window)
    ensures Agrees(Larger(wait, WaitOf(kept, now, attempts, window)), log, keys + [key], lost, now, skew, attempts, window)
  {
    hide Live, Remembered, Faithful, Blocked, MustBlock, WaitOf, Wait;
    BucketDecides(log, lost, now, skew, attempts, window, key, kept);
    var more := keys + [key];
    assert more[..|keys|] == keys;
    assert key in more && forall k :: k in more <==> k in keys || k == key;
  }

  lemma NothingChecked(log: map<Key, seq<real>>, lost: map<Key, real>, now: real, skew: real, attempts: int, window: int)
    requires attempts >= 1 && window >= 1 && skew >= 0.0
    ensures Agrees(0, log, [], lost, now, skew, attempts, window)
  {
  }

  lemma AgreesDecides(wait: int, log: map<Key, seq<real>>, keys: seq<Key>, lost: map<Key, real>, now: real, skew: real,
                      attempts: int, window: int)
    requires attempts >= 1 && Agrees(wait, log, keys, lost, now, skew, attempts, window)
    ensures 0 <= wait && wait as real <= window as real + skew
    ensures wait > 0 ==> exists key :: key in keys && Blocked(log, key, now - skew, attempts, window)
    ensures (exists key :: key in keys && MustBlock(log, lost, key, now, skew, attempts, window)) ==> wait > 0
    ensures (skew == 0.0 && (forall key :: key in keys ==> Remembered(lost, key, now - window as real)) ==>
               Decision(wait > 0, wait) == PlainDecision(log, keys, now, attempts, window))
  {
  }

  lemma NothingYet(start: real, window: int)
    ensures Consistent(Memory([], map[], map[], map[], [], [start]), window)
  {
    hide Peak, StepBack;
  }

  // ---------- the throttle ----------

  class Throttle {
    const maxAttempts: int
    const windowSeconds: int
    const maxKeys: int

    var order: seq<Key>
    var attempts: map<Key, seq<real>>

    ghost var log: map<Key, seq<real>>
    ghost var lost: map<Key, real>
    ghost var touched: seq<Key>
    ghost var readings: seq<real>

    ghost function State(): Memory
      reads this
    {
      Memory(order, attempts, log, lost, touched, readings)
    }

    ghost predicate Running()
      reads this
    {
      maxAttempts >= 1 && windowSeconds >= 1 && maxKeys >= 1 && Consistent(State(), windowSeconds)
    }

    /** Between calls the map is never over its limit. */
    ghost predicate Valid()
      reads this
    {
      Running() && |order| <= maxKeys
    }

    constructor (attemptLimit: int, window: int, keyLimit: int, ghost start: real)
      ensures Valid() && log == map[] && lost == map[] && touched == [] && readings == [start]
      ensures maxAttempts == Larger(1, attemptLimit) && windowSeconds == Larger(1, window) && maxKeys == Larger(1, keyLimit)
    {
      maxAttempts := Larger(1, attemptLimit);
      windowSeconds := Larger(1, window);
      maxKeys := Larger(1, keyLimit);
      order, attempts := [], map[];
      log, lost, touched, readings := map[], map[], [], [start];
      new;
      hide Consistent;
      NothingYet(start, windowSeconds);
    }

    /** The clock reading a call brings with it once it holds the lock. */
    ghost method Arrive(now: real)
      requires Running()
      modifies this`readings
      ensures Running() && State() == Read(old(State()), now) && Current(State(), now)
    {
      hide Consistent;
      ReadKeepsConsistent(State(), now, windowSeconds);
      readings := readings + [now];
    }

    /** `_prune`: drop what has left the window and make the key the most recent. */
    method Prune(key: Key, now: real) returns (kept: seq<real>)
      requires Running() && Current(State(), now)
      modifies this`order, this`attempts, this`touched
      ensures Running() && State() == Pruned(old(State()), key, now, windowSeconds)
      ensures key in attempts && kept == attempts[key]
      ensures Faithful(kept, LogOf(log, key), Remembered(lost, key, now - windowSeconds as real + Skew(State(), now, windowSeconds)),
                       now, Skew(State(), now, windowSeconds), windowSeconds)
    {
      hide Consistent, Without, Faithful, Remembered, StepBack, Peak;
      PruneKeepsConsistent(State(), key, now, windowSeconds);
      kept := if key in attempts then attempts[key] else [];
      var cutoff := now - windowSeconds as real;
      while kept != [] && kept[0] <= cutoff
        invariant DropOld(kept, cutoff) == DropOld(LogOf(attempts, key), cutoff)
        decreases |kept|
      {
        kept := kept[1..];
      }
      order := Without(order, key) + [key];
      attempts := attempts[key := kept];
      touched := touched + [key];
    }

    /** `_trim`: evict the least recently used buckets above the limit. */
    method Trim()
      requires Running()
      modifies this`order, this`attempts, this`lost
      ensures Valid() && State() == Trimmed(old(State()), maxKeys)
    {
      hide Consistent;
      while |order| > maxKeys
        invariant Running()
        invariant Trimmed(State(), maxKeys) == Trimmed(old(State()), maxKeys)
        decreases |order|
      {
        EvictionKeepsConsistent(State(), windowSeconds);
        attempts := attempts - {order[0]};
        lost := lost[order[0] := Peak(readings)];
        order := order[1..];
      }
    }

    /** `check`: blocks only on failures, always on those of a remembered key, up to the
        largest step back of the clock from inside the window; exactly as the plain log when there was
        none and no key was evicted within the window. Nothing is recorded or forgotten, and whoever loses
        their bucket was less recently touched than `maxKeys` other keys. */
    method Check(keys: seq<Key>, now: real) returns (decision: Decision)
      requires Valid()
      modifies this
      ensures Valid() && log == old(log) && touched == old(touched) + keys
      ensures readings == old(readings) + [now]
      ensures var skew := Skew(State(), now, windowSeconds);
        && (decision.blocked ==> exists key :: key in keys && Blocked(log, key, now - skew, maxAttempts, windowSeconds))
        && ((exists key :: key in keys && MustBlock(log, old(lost), key, now, skew, maxAttempts, windowSeconds)) ==> decision.blocked)
        && (skew == 0.0 && (forall key :: key in keys ==> Remembered(old(lost), key, now - windowSeconds as real)) ==>
              decision == PlainDecision(log, keys, now, maxAttempts, windowSeconds))
        && (if decision.blocked then 1 <= decision.retryAfter && decision.retryAfter as real <= windowSeconds as real + skew
            else decision.retryAfter == 0)
      ensures Loses(old(State()).(readings := readings, touched := touched), State(), maxKeys)
    {
      hide Consistent, Live, TouchedAfter, Agrees, Blocked, MustBlock, PlainDecision, Faithful, Remembered, Loses, StepBack, Peak;
      Arrive(now);
      ghost var skew := Skew(State(), now, windowSeconds);
      var retryAfter := 0;
      NothingChecked(log, lost, now, skew, maxAttempts, windowSeconds);
      for i := 0 to |keys|
        invariant Running() && Current(State(), now) && log == old(log) && lost == old(lost)
        invariant readings == old(readings) + [now] && skew == Skew(State(), now, windowSeconds)
        invariant touched == old(touched) + keys[..i]
        invariant retryAfter >= 0 && Agrees(retryAfter, log, keys[..i], lost, now, skew, maxAttempts, windowSeconds)
      {
        assert keys[..i+1] == keys[..i] + [keys[i]];
        var kept := Prune(keys[i], now);
        AgreesStep(retryAfter, log, keys[..i], lost, now, skew, maxAttempts, windowSeconds, keys[i], kept);
        if |kept| >= maxAttempts {
          retryAfter := Larger(retryAfter, Larger(1, (kept[0] + windowSeconds as real - now).Floor));
        }
      }
      assert keys[..|keys|] == keys;
      AgreesDecides(retryAfter, log, keys, lost, now, skew, maxAttempts, windowSeconds);
      TrimmedFacts(State(), maxKeys, windowSeconds);
      LosesFrom(old(State()).(readings := readings, touched := touched), State(), Trimmed(State(), maxKeys), maxKeys);
      Trim();
      decision := Decision(retryAfter > 0, retryAfter);
    }

    /** `record_failure`: the plain log gains one failure per listed key. */
    method RecordFailure(keys: seq<Key>, now: real)
      requires Valid()
      modifies this
      ensures Valid() && log == Recorded(old(log), keys, now) && touched == old(touched) + keys
      ensures readings == old(readings) + [now]
      ensures Loses(old(State()).(readings := readings, touched := touched), State(), maxKeys)
    {
      hide Consistent, TouchedAfter, Faithful, Remembered, Loses, StepBack, Peak;
      Arrive(now);
      for i := 0 to |keys|
        invariant Running() && Current(State(), now) && lost == old(lost)
        invariant readings == old(readings) + [now]
        invariant log == Recorded(old(log), keys[..i], now)
        invariant touched == old(touched) + keys[..i]
      {
        assert keys[..i+1][..i] == keys[..i];
        var kept := Prune(keys[i], now);
        FailureKeepsConsistent(State(), keys[i], now, windowSeconds);
        attempts := attempts[keys[i] := kept + [now]];
        log := log[keys[i] := LogOf(log, keys[i]) + [now]];
      }
      assert keys[..|keys|] == keys;
      TrimmedFacts(State(), maxKeys, windowSeconds);
      LosesFrom(old(State()).(readings := readings, touched := touched), State(), Trimmed(State(), maxKeys), maxKeys);
      Trim();
    }

    /** `clear`: the listed keys start afresh, in the log as in the buckets; the others keep
        their buckets and their order. */
    method Clear(keys: seq<Key>)
      requires Valid()
      modifies this`order, this`attempts, this`log, this`lost
      ensures Valid()
      ensures State() == ClearedAll(old(State()), keys)
    {
      hide Consistent, Cleared, ClearedAll;
      ClearedNone(State());
      for i := 0 to |keys|
        invariant Valid() && State() == ClearedAll(old(State()), keys[..i])
      {
        assert keys[..i+1] == keys[..i] + [keys[i]];
        ClearKeepsConsistent(State(), keys[i], windowSeconds);
        ClearedOneMore(old(State()), keys[..i], keys[i]);
        ForgetKey(keys[i]);
      }
      assert keys[..|keys|] == keys;
    }

    method ForgetKey(key: Key)
      modifies this`order, this`attempts, this`log, this`lost
      ensures State() == Cleared(old(State()), key)
      ensures |order| <= |old(order)|
    {
      order := Without(order, key);
      attempts := attempts - {key};
      log := log - {key};
      lost := lost - {key};
    }
  }
}
