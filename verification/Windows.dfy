/** Sliding windows per key, trimmed on use and pruned now and then: the shape shared by the
    brute-force, distributed brute-force and SASL-connection detectors. */
module Windows {
  import opened Time

  const PRUNE_EVERY: nat := 5_000

  datatype Stamped<T> = Stamped(ts: Nanos, tag: T)

  // ---- trimming ----

  /** Drops the leading records before the cutoff, as the trimming loop does. */
  function Trim<T>(records: seq<Stamped<T>>, cutoff: Nanos): seq<Stamped<T>> {
    if records != [] && records[0].ts < cutoff then Trim(records[1..], cutoff) else records
  }

  /** The records that are not before the cutoff, wherever they stand. */
  function Retained<T>(records: seq<Stamped<T>>, cutoff: Nanos): seq<Stamped<T>> {
    if records == [] then []
    else
      var last := records[|records| - 1];
      Retained(records[..|records| - 1], cutoff) + (if last.ts >= cutoff then [last] else [])
  }

  predicate Sorted<T>(records: seq<Stamped<T>>) {
    forall i, j :: 0 <= i < j < |records| ==> records[i].ts <= records[j].ts
  }

  predicate NotAfter<T>(records: seq<Stamped<T>>, ts: Nanos) {
    forall i :: 0 <= i < |records| ==> records[i].ts <= ts
  }

  method TrimOld<T>(records: seq<Stamped<T>>, cutoff: Nanos) returns (kept: seq<Stamped<T>>)
    ensures kept == Trim(records, cutoff)
  {
    var i := 0;
    while i < |records| && records[i].ts < cutoff
      invariant 0 <= i <= |records|
      invariant Trim(records[i..], cutoff) == Trim(records, cutoff)
    {
      assert records[i..][1..] == records[i + 1..];
      i := i + 1;
    }
    kept := records[i..];
  }

  lemma {:induction false} TrimSuffix<T>(records: seq<Stamped<T>>, cutoff: Nanos) returns (k: nat)
    ensures k <= |records| && Trim(records, cutoff) == records[k..]
    ensures forall i :: 0 <= i < k ==> records[i].ts < cutoff
    ensures k < |records| ==> records[k].ts >= cutoff
  {
    if records != [] && records[0].ts < cutoff {
      var k' := TrimSuffix(records[1..], cutoff);
      k := k' + 1;
      assert records[1..][k'..] == records[k..];
      forall i | 0 < i < k ensures records[i].ts < cutoff { assert records[i] == records[1..][i - 1]; }
    } else {
      k := 0;
    }
  }

  lemma {:induction false} RetainedAll<T>(records: seq<Stamped<T>>, cutoff: Nanos)
    requires forall i :: 0 <= i < |records| ==> records[i].ts >= cutoff
    ensures Retained(records, cutoff)
         == records
  {
    if records != [] {
      RetainedAll(records[..|records| - 1], cutoff);
    }
  }

  lemma {:induction false} RetainedNone<T>(records: seq<Stamped<T>>, cutoff: Nanos)
    requires forall i :: 0 <= i < |records| ==> records[i].ts < cutoff
    ensures Retained(records, cutoff)
         == []
  {
    if records != [] {
      RetainedNone(records[..|records| - 1], cutoff);
    }
  }

  lemma {:induction false} RetainedAppend<T>(a: seq<Stamped<T>>, b: seq<Stamped<T>>, cutoff: Nanos)
    ensures Retained(a + b, cutoff)
         == Retained(a, cutoff) + Retained(b, cutoff)
  {
    if b == [] {
      assert a + b == a;
    } else {
      assert (a + b)[..|a + b| - 1] == a + b[..|b| - 1];
      RetainedAppend(a, b[..|b| - 1], cutoff);
    }
  }

  lemma {:induction false} RetainedTwice<T>(records: seq<Stamped<T>>, early: Nanos, late: Nanos)
    requires early <= late
    ensures Retained(Retained(records, early), late)
         == Retained(records, late)
  {
    if records != [] {
      var init, last := records[..|records| - 1], records[|records| - 1];
      RetainedTwice(init, early, late);
      RetainedAppend(Retained(init, early), if last.ts >= early then [last] else [], late);
    }
  }

  /** On a sorted window trimming the front is the exact filter by time. */
  lemma TrimIsExactFilter<T>(records: seq<Stamped<T>>, cutoff: Nanos)
    requires Sorted(records)
    ensures Trim(records, cutoff) == Retained(records, cutoff)
  {
    hide Trim, Retained;
    var k := TrimSuffix(records, cutoff);
    assert records == records[..k] + records[k..];
    RetainedAppend(records[..k], records[k..], cutoff);
    forall i | 0 <= i < |records[k..]| ensures records[k..][i].ts >= cutoff {
      assert records[k].ts <= records[k + i].ts;
    }
    RetainedNone(records[..k], cutoff);
    RetainedAll(records[k..], cutoff);
  }

  // ---- the sliding window ----

  datatype Hit<T> = Hit(key: string, rec: Stamped<T>)

  datatype Slot<!T> = Slot(windows: map<string, seq<Stamped<T>>>, calls: nat)

  function Window<T>(windows: map<string, seq<Stamped<T>>>, key: string): seq<Stamped<T>> {
    if key in windows then windows[key] else []
  }

  /** pruneExpired: keys whose window is empty at the cutoff are dropped. */
  function Nonempty<T>(windows: map<string, seq<Stamped<T>>>, cutoff: Nanos): map<string, seq<Stamped<T>>> {
    map k | k in windows && Trim(windows[k], cutoff) != [] :: windows[k]
  }

  method PruneExpired<T(==)>(windows: map<string, seq<Stamped<T>>>, cutoff: Nanos)
    returns (kept: map<string, seq<Stamped<T>>>)
    ensures kept == Nonempty(windows, cutoff)
  {
    kept := windows;
    var rest := windows.Keys;
    while rest != {}
      invariant rest <= windows.Keys
      invariant forall k :: k in kept <==> k in windows && (k in rest || Trim(windows[k], cutoff) != [])
      invariant forall k <- kept :: kept[k] == windows[k]
    {
      var k :| k in rest;
      var live := TrimOld(windows[k], cutoff);
      if live == [] { kept := kept - {k}; }
      rest := rest - {k};
    }
  }

  function Current<T>(s: Slot<T>, scan: Nanos, hit: Hit<T>): seq<Stamped<T>> {
    Trim(Window(s.windows, hit.key), hit.rec.ts - scan) + [hit.rec]
  }

  /** One event: trim and extend the window of its key, prune when due, and clear the window
      when it is over the threshold. */
  function Slide<T>(over: seq<Stamped<T>> -> bool, scan: Nanos, s: Slot<T>, hit: Hit<T>): Slot<T> {
    var current := Current(s, scan, hit);
    var updated := s.windows[hit.key := current];
    var due := s.calls + 1 >= PRUNE_EVERY;
    var pruned := if due then Nonempty(updated, hit.rec.ts - scan) else updated;
    Slot(if over(current) then pruned - {hit.key} else pruned, if due then 0 else s.calls + 1)
  }

  predicate Alerts<T>(over: seq<Stamped<T>> -> bool, scan: Nanos, s: Slot<T>, hit: Hit<T>) {
    over(Current(s, scan, hit))
  }

  function Run<T>(over: seq<Stamped<T>> -> bool, scan: Nanos, hits: seq<Hit<T>>): Slot<T> {
    if hits == [] then Slot(map[], 0)
    else Slide(over, scan, Run(over, scan, hits[..|hits| - 1]), hits[|hits| - 1])
  }

  // ---- the definition on the full history ----

  /** Every record of a key since its last alert: nothing trimmed, nothing pruned. */
  function SinceAlert<T>(over: seq<Stamped<T>> -> bool, scan: Nanos, hits: seq<Hit<T>>, key: string): seq<Stamped<T>> {
    if hits == [] then []
    else
      var init, last := hits[..|hits| - 1], hits[|hits| - 1];
      var before := SinceAlert(over, scan, init, key);
      if last.key != key then before
      else if over(Retained(before, last.rec.ts - scan) + [last.rec]) then []
      else before + [last.rec]
  }

  /** The event alerts by definition: the records of its key since the last alert that lie in
      the window, and itself, are over the threshold. */
  predicate ShouldAlert<T>(over: seq<Stamped<T>> -> bool, scan: Nanos, hits: seq<Hit<T>>, hit: Hit<T>) {
    over(Retained(SinceAlert(over, scan, hits, hit.key), hit.rec.ts - scan) + [hit.rec])
  }

  ghost predicate Chronological<T>(hits: seq<Hit<T>>) {
    forall i, j :: 0 <= i < j < |hits| ==> hits[i].rec.ts <= hits[j].rec.ts
  }

  /** A stored window tells, from time `now` on, what the full history tells. */
  ghost predicate Agrees<T>(w: seq<Stamped<T>>, h: seq<Stamped<T>>, scan: Nanos, now: Nanos) {
    Sorted(w) && NotAfter(w, now) && Retained(w, now - scan) == Retained(h, now - scan)
  }

  lemma AgreesLater<T>(w: seq<Stamped<T>>, h: seq<Stamped<T>>, scan: Nanos, now: Nanos, later: Nanos)
    requires Agrees(w, h, scan, now) && now <= later
    ensures Agrees(w, h, scan, later)
  {
    hide Retained;
    RetainedTwice(w, now - scan, later - scan);
    RetainedTwice(h, now - scan, later - scan);
  }

  lemma AgreesExtended<T>(w: seq<Stamped<T>>, h: seq<Stamped<T>>, scan: Nanos, rec: Stamped<T>)
    requires Agrees(w, h, scan, rec.ts)
    ensures Trim(w, rec.ts - scan) == Retained(h, rec.ts - scan)
    ensures Agrees(Trim(w, rec.ts - scan) + [rec], h + [rec], scan, rec.ts)
  {
    hide Trim, Retained;
    var cutoff := rec.ts - scan;
    TrimIsExactFilter(w, cutoff);
    RetainedTwice(w, cutoff, cutoff);
    RetainedAppend(Trim(w, cutoff), [rec], cutoff);
    RetainedAppend(h, [rec], cutoff);
    TrimStaysSorted(w, cutoff, rec);
  }

  lemma TrimStaysSorted<T>(w: seq<Stamped<T>>, cutoff: Nanos, rec: Stamped<T>)
    requires Sorted(w) && NotAfter(w, rec.ts)
    ensures Sorted(Trim(w, cutoff) + [rec]) && NotAfter(Trim(w, cutoff) + [rec], rec.ts)
  {
    hide Trim;
    var k := TrimSuffix(w, cutoff);
    var t := w[k..] + [rec];
    assert forall i :: 0 <= i < |w| - k ==> t[i] == w[k + i];
  }

  lemma AgreesPruned<T>(w: seq<Stamped<T>>, h: seq<Stamped<T>>, scan: Nanos, now: Nanos)
    requires Agrees(w, h, scan, now) && Trim(w, now - scan) == []
    ensures Agrees([], h, scan, now)
  {
    TrimIsExactFilter(w, now - scan);
  }

  /** Pruning and trimming are invisible: in every reachable state every window agrees with
      the untrimmed, unpruned history. */
  lemma {:induction false} WindowsAgree<T>(over: seq<Stamped<T>> -> bool, scan: Nanos, hits: seq<Hit<T>>, key: string,
                                           now: Nanos)
    requires Chronological(hits) && (hits != [] ==> hits[|hits| - 1].rec.ts <= now)
    ensures Agrees(Window(Run(over, scan, hits).windows, key), SinceAlert(over, scan, hits, key), scan, now)
  {
    if hits == [] {
      NothingAgrees<T>(over, scan, key, now);
    } else {
      var init, last := hits[..|hits| - 1], hits[|hits| - 1];
      WindowsAgree(over, scan, init, last.key, last.rec.ts);
      WindowsAgree(over, scan, init, key, last.rec.ts);
      hide Agrees, Retained, Trim, Slide, Run, SinceAlert, Current, Window;
      WindowsAgreeStep(over, scan, hits, key);
      var w, h := Window(Run(over, scan, hits).windows, key), SinceAlert(over, scan, hits, key);
      AgreesLater(w, h, scan, last.rec.ts, now);
    }
  }

  lemma WindowsAgreeStep<T>(over: seq<Stamped<T>> -> bool, scan: Nanos, hits: seq<Hit<T>>, key: string)
    requires hits != []
    requires var init, last := hits[..|hits| - 1], hits[|hits| - 1];
             forall k <- [key, last.key] ::
               Agrees(Window(Run(over, scan, init).windows, k), SinceAlert(over, scan, init, k), scan, last.rec.ts)
    ensures var w, h := Window(Run(over, scan, hits).windows, key), SinceAlert(over, scan, hits, key);
            Agrees(w, h, scan, hits[|hits| - 1].rec.ts)
  {
    hide Agrees, Retained, Trim, Slide, Run, SinceAlert, Current, Window;
    var init, last := hits[..|hits| - 1], hits[|hits| - 1];
    var s := Run(over, scan, init);
    assert key in [key, last.key] && last.key in [key, last.key];
    RunStep(over, scan, hits, key);
    AgreesExtended(Window(s.windows, last.key), SinceAlert(over, scan, init, last.key), scan, last.rec);
    CurrentIsWindow(s, scan, last);
    StepAgrees(over, scan, s, last, key, SinceAlert(over, scan, hits, key));
  }

  lemma CurrentIsWindow<T>(s: Slot<T>, scan: Nanos, hit: Hit<T>)
    ensures Current(s, scan, hit) == Trim(Window(s.windows, hit.key), hit.rec.ts - scan) + [hit.rec]
  {
  }

  lemma RunStep<T>(over: seq<Stamped<T>> -> bool, scan: Nanos, hits: seq<Hit<T>>, key: string)
    requires hits != []
    ensures var init, last := hits[..|hits| - 1], hits[|hits| - 1];
            var before := SinceAlert(over, scan, init, key);
            && Run(over, scan, hits) == Slide(over, scan, Run(over, scan, init), last)
            && SinceAlert(over, scan, hits, key) ==
               if last.key != key then before
               else if over(Retained(before, last.rec.ts - scan) + [last.rec]) then []
               else before + [last.rec]
  {
    hide Slide, Retained;
  }

  lemma NothingAgrees<T>(over: seq<Stamped<T>> -> bool, scan: Nanos, key: string, now: Nanos)
    ensures Agrees(Window(Run<T>(over, scan, []).windows, key), SinceAlert<T>(over, scan, [], key), scan, now)
  {
  }

  lemma StepAgrees<T>(over: seq<Stamped<T>> -> bool, scan: Nanos, s: Slot<T>, hit: Hit<T>, key: string,
                      h: seq<Stamped<T>>)
    requires key != hit.key ==> Agrees(Window(s.windows, key), h, scan, hit.rec.ts)
    requires key == hit.key && over(Current(s, scan, hit)) ==> h == []
    requires key == hit.key && !over(Current(s, scan, hit)) ==> Agrees(Current(s, scan, hit), h, scan, hit.rec.ts)
    ensures Agrees(Window(Slide(over, scan, s, hit).windows, key), h, scan, hit.rec.ts)
  {
    var before := Window(s.windows[hit.key := Current(s, scan, hit)], key);
    var after := Window(Slide(over, scan, s, hit).windows, key);
    if after != before && before != [] && !(key == hit.key && over(Current(s, scan, hit))) {
      AgreesPruned(before, h, scan, hit.rec.ts);
    }
  }

  /** An event alerts exactly when the definition on the full history says so. */
  lemma AlertsAsDefined<T>(over: seq<Stamped<T>> -> bool, scan: Nanos, hits: seq<Hit<T>>, hit: Hit<T>)
    requires Chronological(hits + [hit])
    ensures Alerts(over, scan, Run(over, scan, hits), hit)
       <==> ShouldAlert(over, scan, hits, hit)
  {
    hide Retained, Trim, Run, SinceAlert;
    HistoryTrim(over, scan, hits, hit);
  }

  /** No stored window is over the threshold: an alert always clears it. */
  lemma {:induction false} StoredBelowThreshold<T>(over: seq<Stamped<T>> -> bool, scan: Nanos, hits: seq<Hit<T>>)
    ensures forall k <- Run(over, scan, hits).windows :: !over(Run(over, scan, hits).windows[k])
  {
    if hits != [] { StoredBelowThreshold(over, scan, hits[..|hits| - 1]); }
  }

  /** What trimming leaves of the stored window is what the history retains. */
  lemma HistoryTrim<T>(over: seq<Stamped<T>> -> bool, scan: Nanos, hits: seq<Hit<T>>, hit: Hit<T>)
    requires Chronological(hits + [hit])
    ensures Trim(Window(Run(over, scan, hits).windows, hit.key), hit.rec.ts - scan)
         == Retained(SinceAlert(over, scan, hits, hit.key), hit.rec.ts - scan)
  {
    hide Agrees, Retained, Trim, Run, SinceAlert;
    var all := hits + [hit];
    assert all[|hits|] == hit && forall i :: 0 <= i < |hits| ==> all[i] == hits[i];
    WindowsAgree(over, scan, hits, hit.key, hit.rec.ts);
    var w, h := Window(Run(over, scan, hits).windows, hit.key), SinceAlert(over, scan, hits, hit.key);
    AgreesExtended(w, h, scan, hit.rec);
  }

  // ---- what is forgotten ----

  lemma {:induction false} CallsCounted<T>(over: seq<Stamped<T>> -> bool, scan: Nanos, hits: seq<Hit<T>>)
    ensures Run(over, scan, hits).calls
         == |hits| % 5_000
  {
    if hits != [] {
      hide Current, Nonempty;
      CallsCounted(over, scan, hits[..|hits| - 1]);
      assert Run(over, scan, hits) == Slide(over, scan, Run(over, scan, hits[..|hits| - 1]), hits[|hits| - 1]);
    }
  }

  /** Behind every 5000th event each stored window has a record in the window of that event: the keys
      with nothing recent are forgotten, whatever the others are. */
  lemma PruneForgets<T>(over: seq<Stamped<T>> -> bool, scan: Nanos, hits: seq<Hit<T>>, key: string)
    requires hits != [] && |hits| % 5_000 == 0 && key in Run(over, scan, hits).windows
    ensures exists r <- Run(over, scan, hits).windows[key] :: r.ts >= hits[|hits| - 1].rec.ts - scan
  {
    hide Current, Trim;
    var cutoff := hits[|hits| - 1].rec.ts - scan;
    CallsCounted(over, scan, hits[..|hits| - 1]);
    var w := Run(over, scan, hits).windows[key];
    var k := TrimSuffix(w, cutoff);
    assert Trim(w, cutoff) != [];
    assert w[k] in w;
  }
}
