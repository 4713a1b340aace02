/** Detectors fed with events: from the windows of their hits back to the events themselves. */
module Feeds {
  import opened Events
  import opened TargetText
  import opened Windows
  import opened Time

  /** What reaches a detector: for each line of a log its event, if it gives one. */
  type Feed = seq<Option<Event>>

  ghost predicate InOrder(feed: Feed) {
    forall i, j :: 0 <= i < j < |feed| && feed[i].Some? && feed[j].Some? ==> feed[i].value.ts <= feed[j].value.ts
  }

  /** What a detector makes of an event: nothing, or a hit. */
  type Reading<!T> = Event -> Option<Hit<T>>

  function Read<T>(reading: Reading<T>, input: Option<Event>): Option<Hit<T>> {
    match input
    case None => None
    case Some(ev) => reading(ev)
  }

  ghost predicate KeepsTimes<T(!new)>(reading: Reading<T>) {
    forall ev :: reading(ev).Some? ==> reading(ev).value.rec.ts == ev.ts
  }

  /** The state of the detector behind the feed. */
  function After<T>(over: seq<Stamped<T>> -> bool, scan: Nanos, reading: Reading<T>, feed: Feed): Slot<T> {
    if feed == [] then Slot(map[], 0)
    else
      var s := After(over, scan, reading, feed[..|feed| - 1]);
      match Read(reading, feed[|feed| - 1])
      case None => s
      case Some(hit) => Slide(over, scan, s, hit)
  }

  /** The j-th input alerts. */
  predicate AlertsAt<T>(over: seq<Stamped<T>> -> bool, scan: Nanos, reading: Reading<T>, feed: Feed, j: nat)
    requires j < |feed|
  {
    var hit := Read(reading, feed[j]);
    hit.Some? && Alerts(over, scan, After(over, scan, reading, feed[..j]), hit.value)
  }

  function HitsOf<T>(reading: Reading<T>, feed: Feed): seq<Hit<T>> {
    if feed == [] then []
    else
      var hit := Read(reading, feed[|feed| - 1]);
      HitsOf(reading, feed[..|feed| - 1]) + (if hit.Some? then [hit.value] else [])
  }

  /** The records of a key among the inputs from..to, in order. */
  function Records<T>(reading: Reading<T>, feed: Feed, from: nat, to: nat, key: string): seq<Stamped<T>>
    requires from <= to <= |feed|
  {
    if from == to then []
    else
      var hit := Read(reading, feed[to - 1]);
      Records(reading, feed, from, to - 1, key) + (if hit.Some? && hit.value.key == key then [hit.value.rec] else [])
  }

  // ---- feeds and hits ----

  lemma {:induction false} AfterIsRun<T>(over: seq<Stamped<T>> -> bool, scan: Nanos, reading: Reading<T>, feed: Feed)
    ensures After(over, scan, reading, feed)
         == Run(over, scan, HitsOf(reading, feed))
  {
    if feed != [] {
      hide Slide, Read;
      var init := feed[..|feed| - 1];
      AfterIsRun(over, scan, reading, init);
      var hits, hit := HitsOf(reading, init), Read(reading, feed[|feed| - 1]);
      if hit.Some? {
        assert (hits + [hit.value])[..|hits|] == hits;
      } else {
        assert hits + [] == hits;
      }
    }
  }

  lemma HitsNext<T>(reading: Reading<T>, feed: Feed, j: nat)
    requires j < |feed|
    ensures var hit := Read(reading, feed[j]);
            HitsOf(reading, feed[..j + 1]) == HitsOf(reading, feed[..j]) + (if hit.Some? then [hit.value] else [])
  {
    hide Read;
    assert feed[..j + 1][..j] == feed[..j];
  }

  lemma {:induction false} HitsInOrder<T(!new)>(reading: Reading<T>, feed: Feed, j: nat, now: Nanos)
    requires KeepsTimes(reading) && InOrder(feed) && j <= |feed|
    requires forall i :: 0 <= i < j && feed[i].Some? ==> feed[i].value.ts <= now
    ensures var hits := HitsOf(reading, feed[..j]);
            Chronological(hits) && forall k :: 0 <= k < |hits| ==> hits[k].rec.ts <= now
  {
    if j > 0 {
      HitsNext(reading, feed, j - 1);
      if feed[j - 1].Some? {
        HitsInOrder(reading, feed, j - 1, feed[j - 1].value.ts);
      } else {
        HitsInOrder(reading, feed, j - 1, now);
      }
    }
  }

  /** The input at from - 1 alerted for the key, and no later one before j did. */
  ghost predicate LastAlert<T>(over: seq<Stamped<T>> -> bool, scan: Nanos, reading: Reading<T>, feed: Feed,
                               from: nat, j: nat, key: string)
    requires from <= j <= |feed|
  {
    && (from > 0 ==> AlertsAt(over, scan, reading, feed, from - 1) && Read(reading, feed[from - 1]).value.key == key)
    && forall i :: from <= i < j && AlertsAt(over, scan, reading, feed, i) ==> Read(reading, feed[i]).value.key != key
  }

  /** An input alerts exactly when the definition on the full history of the hits says so. */
  lemma AlertsByDefinition<T(!new)>(over: seq<Stamped<T>> -> bool, scan: Nanos, reading: Reading<T>, feed: Feed, j: nat)
    requires KeepsTimes(reading) && InOrder(feed) && j < |feed| && Read(reading, feed[j]).Some?
    ensures var hits, hit := HitsOf(reading, feed[..j]), Read(reading, feed[j]).value;
            && Chronological(hits + [hit])
            && AlertsAt(over, scan, reading, feed, j) == Alerts(over, scan, Run(over, scan, hits), hit)
            && AlertsAt(over, scan, reading, feed, j) == ShouldAlert(over, scan, hits, hit)
  {
    hide Alerts, ShouldAlert, Run, After, HitsOf;
    var hits, hit := HitsOf(reading, feed[..j]), Read(reading, feed[j]).value;
    AfterIsRun(over, scan, reading, feed[..j]);
    HitsInOrder(reading, feed, j, feed[j].value.ts);
    AlertsAsDefined(over, scan, hits, hit);
  }

  lemma SinceNext<T>(over: seq<Stamped<T>> -> bool, scan: Nanos, hits: seq<Hit<T>>, hit: Hit<T>, key: string)
    ensures var before := SinceAlert(over, scan, hits, key);
            SinceAlert(over, scan, hits + [hit], key) ==
            if hit.key != key then before
            else if ShouldAlert(over, scan, hits, hit) then []
            else before + [hit.rec]
  {
    hide Retained;
    assert (hits + [hit])[..|hits|] == hits;
  }

  /** The full history since the last alert is the records of the inputs since then. */
  lemma {:induction false} SinceLastAlert<T(!new)>(over: seq<Stamped<T>> -> bool, scan: Nanos, reading: Reading<T>,
                                                   feed: Feed, from: nat, j: nat, key: string)
    requires KeepsTimes(reading) && InOrder(feed) && from <= j <= |feed|
    requires LastAlert(over, scan, reading, feed, from, j, key)
    ensures SinceAlert(over, scan, HitsOf(reading, feed[..j]), key)
         == Records(reading, feed, from, j, key)
  {
    hide ShouldAlert, Alerts, After, SinceAlert, HitsOf, KeepsTimes, InOrder, Read;
    if j == 0 {
      NothingSince(over, scan, reading, key);
      assert feed[..0] == [];
    } else {
      HitsNext(reading, feed, j - 1);
      var hits := HitsOf(reading, feed[..j - 1]);
      if Read(reading, feed[j - 1]).Some? {
        AlertsByDefinition(over, scan, reading, feed, j - 1);
        SinceNext(over, scan, hits, Read(reading, feed[j - 1]).value, key);
      } else {
        assert hits + [] == hits;
      }
      if from < j { SinceLastAlert(over, scan, reading, feed, from, j - 1, key); }
    }
  }

  /** The records in the window of a hit that came since the input `from`, and the hit's own. */
  function InWindow<T>(reading: Reading<T>, feed: Feed, from: nat, j: nat, scan: Nanos, hit: Hit<T>): seq<Stamped<T>>
    requires from <= j <= |feed|
  {
    Retained(Records(reading, feed, from, j, hit.key), hit.rec.ts - scan) + [hit.rec]
  }

  /** What the detector looks at is what came in the window since the last alert. */
  lemma WindowIsHistory<T(!new)>(over: seq<Stamped<T>> -> bool, scan: Nanos, reading: Reading<T>, feed: Feed,
                                 from: nat, j: nat, hit: Hit<T>)
    requires KeepsTimes(reading) && InOrder(feed) && from <= j < |feed| && Read(reading, feed[j]) == Some(hit)
    requires LastAlert(over, scan, reading, feed, from, j, hit.key)
    ensures InWindow(reading, feed, from, j, scan, hit)
         == Retained(SinceAlert(over, scan, HitsOf(reading, feed[..j]), hit.key), hit.rec.ts - scan) + [hit.rec]
  {
    hide SinceAlert, HitsOf, Records, Retained, LastAlert;
    SinceLastAlert(over, scan, reading, feed, from, j, hit.key);
  }

  /** An input alerts exactly when what came in its window since the last alert is over the threshold;
      and that is what the alerts are made from. */
  lemma AlertsInWindow<T(!new)>(over: seq<Stamped<T>> -> bool, scan: Nanos, reading: Reading<T>, feed: Feed,
                                from: nat, j: nat, hit: Hit<T>)
    requires KeepsTimes(reading) && InOrder(feed) && from <= j < |feed| && Read(reading, feed[j]) == Some(hit)
    requires LastAlert(over, scan, reading, feed, from, j, hit.key)
    ensures AlertsAt(over, scan, reading, feed, j)
       <==> over(InWindow(reading, feed, from, j, scan, hit))
    ensures Current(After(over, scan, reading, feed[..j]), scan, hit)
         == InWindow(reading, feed, from, j, scan, hit)
  {
    hide Retained, Run, SinceAlert, After, HitsOf, InWindow, LastAlert, KeepsTimes, InOrder, Read, Windows.Trim;
    WindowIsHistory(over, scan, reading, feed, from, j, hit);
    AlertsByDefinition(over, scan, reading, feed, j);
    AfterIsRun(over, scan, reading, feed[..j]);
    HistoryTrim(over, scan, HitsOf(reading, feed[..j]), hit);
  }

  lemma NothingSince<T>(over: seq<Stamped<T>> -> bool, scan: Nanos, reading: Reading<T>, key: string)
    ensures HitsOf(reading, []) == [] && SinceAlert(over, scan, HitsOf(reading, []), key) == []
  {
  }
}
