/** The rich rules of the firewalld backend: printed by buildFirewallCmds, read back by
    parseFirewallRule and ListBlockedIPs. */
module FirewallRules {
  import opened TargetText
  import Ipv4

  const KEY := "address="
  const ADD_RULE := "--add-rich-rule="

  /** The rule text for a target, with the quote character firewalld prints. */
  function RichRule(target: string, quote: char): string {
    "rule family=" + [quote] + "ipv4" + [quote] + " source " + KEY + [quote] + target + [quote] + " reject"
  }

  datatype Cmd = Cmd(args: seq<string>)

  /** buildFirewallCmds: temporary bans are one command with a timeout, permanent ones a
      runtime and a permanent command. */
  function BuildFirewallCmds(target: string, banSeconds: int): seq<Cmd> {
    var richFlag := ADD_RULE + RichRule(target, '\'');
    if banSeconds > 0 then [Cmd([richFlag, "--timeout=" + Decimal(banSeconds)])]
    else [Cmd([richFlag]), Cmd(["--permanent", richFlag])]
  }

  /** One round of parseFirewallRule: the text between `address=<quote>` and the next quote. */
  function Quoted(line: string, quote: char): Option<string> {
    var prefix := KEY + [quote];
    match Find(line, prefix)
    case None => None
    case Some(idx) =>
      var rest := line[idx + |prefix|..];
      match IndexOf(rest, quote)
      case None => None
      case Some(end) => if ValidBlockTarget(rest[..end]) then Some(rest[..end]) else None
  }

  /** What parseFirewallRule returns; "" when the line is not a rule of the agent. */
  function RuleTarget(line: string): string {
    match Quoted(line, '"')
    case Some(t) => t
    case None =>
      match Quoted(line, '\'')
      case Some(t) => t
      case None => ""
  }

  method ParseFirewallRule(line: string) returns (target: string)
    ensures target == RuleTarget(line)
  {
    hide Find, IndexOf, ValidBlockTarget;
    var quotes := ['"', '\''];
    for k := 0 to |quotes|
      invariant k >= 1 ==> Quoted(line, '"').None?
      invariant k >= 2 ==> Quoted(line, '\'').None?
    {
      var quote := quotes[k];
      var prefix := KEY + [quote];
      var idx := Find(line, prefix);
      if idx.None? { continue; }
      var rest := line[idx.value + |prefix|..];
      var end := IndexOf(rest, quote);
      if end.None? { continue; }
      if ValidBlockTarget(rest[..end.value]) {
        return rest[..end.value];
      }
    }
    target := "";
  }

  function Listed(lines: seq<string>): seq<string> {
    if lines == [] then []
    else
      var ip := RuleTarget(lines[|lines| - 1]);
      Listed(lines[..|lines| - 1]) + (if ip != "" then [ip] else [])
  }

  /** The scan loop of ListBlockedIPs over the printed rules. */
  method ListBlockedIps(lines: seq<string>) returns (ips: seq<string>)
    ensures ips == Listed(lines)
  {
    ips := [];
    for i := 0 to |lines|
      invariant ips == Listed(lines[..i])
    {
      var ip := ParseFirewallRule(lines[i]);
      assert lines[..i + 1][..i] == lines[..i];
      if ip != "" {
        ips := ips + [ip];
      }
    }
    assert lines[..|lines|] == lines;
  }

  // ---- properties ----

  /** Only the text before the address could hide the key, and it does not. */
  lemma KeyPosition(target: string, quote: char)
    requires quote in {'"', '\''}
    ensures Find(RichRule(target, quote), KEY + [quote])
         == Some(26)
  {
    hide FindFrom;
    var line := RichRule(target, quote);
    var pre := "rule family=" + [quote] + "ipv4" + [quote] + " source ";
    assert line == pre + (KEY + [quote]) + (target + [quote] + " reject");
    assert |pre| == 26;
    assert OccursAt(line, KEY + [quote], 26);
    NoEarlierKey(line, target, quote);
  }

  lemma NoEarlierKey(line: string, target: string, quote: char)
    requires quote in {'"', '\''} && line == RichRule(target, quote)
    ensures forall i: nat :: i < 26 ==> !OccursAt(line, KEY + [quote], i)
  {
    forall i: nat | i < 26 ensures !OccursAt(line, KEY + [quote], i) {
      OccursStart(line, KEY + [quote], i);
      assert line[i] == 'a' ==> i == 6;
      assert line[7] == 'm';
    }
  }

  lemma OccursStart(s: string, pat: string, i: nat)
    requires |pat| >= 2
    ensures OccursAt(s, pat, i) ==> s[i] == pat[0] && s[i + 1] == pat[1] && s[i + |pat| - 1] == pat[|pat| - 1]
  {
    if OccursAt(s, pat, i) {
      assert s[i..i + |pat|][0] == s[i] && s[i..i + |pat|][1] == s[i + 1];
      assert s[i..i + |pat|][|pat| - 1] == s[i + |pat| - 1];
    }
  }

  /** A rule printed with one kind of quote holds none of the other kind. */
  lemma OtherQuoteAbsent(target: string, quote: char, other: char)
    requires quote in {'"', '\''} && other in {'"', '\''} && quote != other
    requires forall c <- target :: TargetChar(c)
    ensures Quoted(RichRule(target, quote), other).None?
  {
    var line := RichRule(target, quote);
    assert other !in line;
    forall i: nat ensures !OccursAt(line, KEY + [other], i) {
      OccursStart(line, KEY + [other], i);
    }
  }

  lemma QuotedTarget(target: string, quote: char)
    requires quote in {'"', '\''} && ValidBlockTarget(target)
    ensures Quoted(RichRule(target, quote), quote)
         == Some(target)
  {
    hide Find, RichRule, IndexOf, ValidBlockTarget;
    KeyPosition(target, quote);
    RuleTail(target, quote);
  }

  /** What stands behind the key of a printed rule. */
  lemma RuleTail(target: string, quote: char)
    requires quote in {'"', '\''} && ValidBlockTarget(target)
    ensures var line := RichRule(target, quote);
            |line| >= 35 && |KEY + [quote]| == 9 && IndexOf(line[35..], quote) == Some(|target|)
            && line[35..][..|target|] == target
  {
    ValidTargetChars(target);
    hide IndexOf, ValidBlockTarget;
    var line, tail := RichRule(target, quote), target + [quote] + " reject";
    var pre := "rule family=" + [quote] + "ipv4" + [quote] + " source ";
    assert line == (pre + (KEY + [quote])) + tail;
    assert line[35..] == tail && tail[..|target|] == target && tail[|target|] == quote;
    IndexOfFirst(tail, quote, |target|);
  }

  /** Reading a rule back gives the text it was printed for, with either quote. */
  lemma RuleRoundTrip(target: string, quote: char)
    requires quote in {'"', '\''} && ValidBlockTarget(target)
    ensures RuleTarget(RichRule(target, quote))
         == target
  {
    ValidTargetChars(target);
    QuotedTarget(target, quote);
    if quote == '\'' { OtherQuoteAbsent(target, '\'', '"'); }
  }

  /** Hence the same target: no rule is read back as a ban of something else. */
  lemma RuleRoundTripTarget(t: Ipv4.Target, quote: char)
    requires quote in {'"', '\''}
    ensures ParseTarget(RuleTarget(RichRule(Format(t), quote)))
         == Some(t)
  {
    ParsePrinted(t);
    RuleRoundTrip(Format(t), quote);
  }

  predicate AddsRuleFor(cmd: Cmd, target: string) {
    exists arg <- cmd.args :: ADD_RULE <= arg && RuleTarget(arg[|ADD_RULE|..]) == target
  }

  /** Every command for a target adds a rule that is read back as that target; the ban survives
      a reload of the firewall exactly when no positive number of seconds was given. */
  lemma CommandsBanTheTarget(target: string, banSeconds: int)
    requires ValidBlockTarget(target)
    ensures var cmds := BuildFirewallCmds(target, banSeconds);
            && (forall cmd <- cmds :: AddsRuleFor(cmd, target))
            && (banSeconds <= 0 <==> exists cmd <- cmds :: "--permanent" in cmd.args)
            && (exists cmd <- cmds :: "--permanent" !in cmd.args)
            && (banSeconds > 0 ==> |cmds| == 1 && "--timeout=" + Decimal(banSeconds) in cmds[0].args)
  {
    hide RuleTarget, RichRule;
    RuleRoundTrip(target, '\'');
    var cmds := BuildFirewallCmds(target, banSeconds);
    var rule := RichRule(target, '\'');
    var arg := ADD_RULE + rule;
    assert arg[|ADD_RULE|..] == rule;
    assert arg[2] == 'a' && "--permanent"[2] == 'p';
    assert forall cmd <- cmds :: arg in cmd.args;
    if banSeconds > 0 {
      assert ("--timeout=" + Decimal(banSeconds))[2] == 't';
    } else {
      assert "--permanent" in cmds[1].args;
    }
  }

  function RichRules(ts: seq<Ipv4.Target>, quote: char): seq<string> {
    seq(|ts|, i requires 0 <= i < |ts| => RichRule(Format(ts[i]), quote))
  }

  lemma {:induction false} ListedEach(lines: seq<string>, ips: seq<string>)
    requires |lines| == |ips|
    requires forall i :: 0 <= i < |lines| ==> RuleTarget(lines[i]) == ips[i]
    requires "" !in ips
    ensures Listed(lines) == ips
  {
    hide RuleTarget;
    if lines != [] {
      var n := |lines| - 1;
      assert ips == ips[..n] + [ips[n]];
      assert "" !in ips[..n] && ips[n] in ips;
      ListedEach(lines[..n], ips[..n]);
    }
  }

  /** A listing of printed rules gives back exactly the targets, in order. */
  lemma ListingRoundTrip(ts: seq<Ipv4.Target>, quote: char)
    requires quote in {'"', '\''}
    ensures Listed(RichRules(ts, quote))
         == seq(|ts|, i requires 0 <= i < |ts| => Format(ts[i]))
  {
    var lines := RichRules(ts, quote);
    var ips := seq(|ts|, i requires 0 <= i < |ts| => Format(ts[i]));
    forall i | 0 <= i < |ts| ensures RuleTarget(lines[i]) == ips[i] && ips[i] != "" {
      ParsePrinted(ts[i]);
      ValidTargetChars(ips[i]);
      RuleRoundTrip(ips[i], quote);
    }
    ListedEach(lines, ips);
  }

  lemma QuotedSound(line: string, quote: char) returns (i: nat)
    requires Quoted(line, quote).Some?
    ensures var t := Quoted(line, quote).value;
            ValidBlockTarget(t) && OccursAt(line, KEY + [quote] + t + [quote], i)
  {
    var t := Quoted(line, quote).value;
    var prefix := KEY + [quote];
    i := Find(line, prefix).value;
    var j := i + |prefix|;
    var rest := line[j..];
    assert rest[..|t| + 1] == t + [quote];
    assert line[i..j + |t| + 1] == line[i..j] + rest[..|t| + 1];
    assert prefix + (t + [quote]) == prefix + t + [quote];
  }

  /** Whatever is read from any line is a valid target that stands there in quotes. */
  lemma RuleTargetSound(line: string)
    requires RuleTarget(line) != ""
    ensures ValidBlockTarget(RuleTarget(line))
    ensures exists quote: char, i: nat ::
              quote in ['"', '\''] && OccursAt(line, KEY + [quote] + RuleTarget(line) + [quote], i)
  {
    var quote := if Quoted(line, '"').Some? then '"' else '\'';
    var i := QuotedSound(line, quote);
    assert quote in ['"', '\''] && OccursAt(line, KEY + [quote] + RuleTarget(line) + [quote], i);
  }
}
