/** From the lines of the mail log to the alerts of the brute-force detector. */
module LogAlerts {
  import opened Events
  import opened MailLog
  import opened TargetText
  import opened Time
  import AuthFailedDetector
  import Feeds

  /** What each line of the log gives the detectors. */
  function FeedOf(lines: seq<Line>): Feeds.Feed {
    seq(|lines|, i requires 0 <= i < |lines| => EventAt(lines, i))
  }

  /** The brute-force detector, fed with the parser's events, alerts on line j. */
  predicate AlertsAt(max: int, scan: Nanos, lines: seq<Line>, j: nat)
    requires j < |lines|
  {
    AuthFailedDetector.AlertsAt(max, scan, FeedOf(lines), j)
  }

  predicate FailsFrom(line: Line, ip: string) { line.msg.SaslFail? && line.msg.ip == ip }

  /** The failures of the IP among the lines from..to, not before a time. */
  function FailureLines(lines: seq<Line>, from: nat, to: nat, ip: string, since: Nanos): set<nat>
    requires to <= |lines|
  {
    set i | from <= i < to && FailsFrom(lines[i], ip) && lines[i].ts >= since
  }

  /** From the log to the alert, over every log in order of time: the detector alerts on a line if and
      only if it reports a failed authentication with an IP, and with the lines that report one of that
      IP in the window, since its last alert, it makes exactly as many as the threshold. */
  lemma AlertsOnLines(max: int, scan: Nanos, lines: seq<Line>, from: nat, j: nat, ip: string)
    requires max >= 1 && Chronological(lines) && from <= j < |lines|
    requires from > 0 ==> AlertsAt(max, scan, lines, from - 1) && FailsFrom(lines[from - 1], ip)
    requires forall i :: from <= i < j && AlertsAt(max, scan, lines, i) ==> !FailsFrom(lines[i], ip)
    ensures AlertsAt(max, scan, lines, j) ==> lines[j].msg.SaslFail?
    ensures FailsFrom(lines[j], ip) ==>
              (AlertsAt(max, scan, lines, j) <==>
               ip != "" && |FailureLines(lines, from, j, ip, lines[j].ts - scan)| + 1 == max)
  {
    hide EventAt, AuthFailedDetector.AlertsAt, AuthFailedDetector.FailureOf;
    var feed := FeedOf(lines);
    forall i | 0 <= i < |lines| ensures ReadAlike(feed[i], lines[i]) { LineAndEvent(lines, i); }
    if AlertsAt(max, scan, lines, j) { AlertIsFailure(max, scan, feed, j); }
    if FailsFrom(lines[j], ip) {
      var since := lines[j].ts - scan;
      forall i | 0 <= i < |lines|
        ensures AuthFailedDetector.FailureOf(feed[i], ip, since) <==> FailsFrom(lines[i], ip) && lines[i].ts >= since
      {
        FailureIsLine(feed[i], lines[i], ip, since);
      }
      assert AuthFailedDetector.Failures(feed, from, j, ip, since) == FailureLines(lines, from, j, ip, since);
      forall i | from <= i < j && AuthFailedDetector.AlertsAt(max, scan, feed, i)
        ensures feed[i].Some? && feed[i].value.ip != ip
      {
        AlertIsFailure(max, scan, feed, i);
      }
      AuthFailedDetector.AlertsExactly(max, scan, feed, from, j);
    }
  }

  /** A line and its event tell the same of failures. */
  ghost predicate ReadAlike(input: Option<Event>, line: Line) {
    && (line.msg.SaslFail? <==> input.Some? && input.value.kind == AuthFailed)
    && (line.msg.SaslFail? ==> input.value.ip == line.msg.ip)
    && (input.Some? ==> input.value.ts == line.ts)
  }

  lemma LineAndEvent(lines: seq<Line>, i: nat)
    requires i < |lines|
    ensures ReadAlike(EventAt(lines, i), lines[i])
  {
    hide EventAt;
    EventsAreOfTheirLines(lines, i);
  }

  lemma FailureIsLine(input: Option<Event>, line: Line, ip: string, since: Nanos)
    requires ReadAlike(input, line)
    ensures AuthFailedDetector.FailureOf(input, ip, since)
       <==> FailsFrom(line, ip) && line.ts >= since
  {
  }

  lemma AlertIsFailure(max: int, scan: Nanos, feed: Feeds.Feed, j: nat)
    requires j < |feed| && AuthFailedDetector.AlertsAt(max, scan, feed, j)
    ensures feed[j].Some? && feed[j].value.kind == AuthFailed
  {
  }
}
