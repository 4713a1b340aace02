/** The exemptions of the detection engine: built-in private networks, the operator's own
    list, and the networks silenced while a ban lasts, which are kept apart from it. */
module Whitelists {
  import opened Ipv4
  import opened TargetText

  /** Private and local networks that are always exempt (the IPv4 ones). */
  const BUILTIN_NETS: seq<Net> :=
    [Net(0x7F00_0000, 8), Net(0x0A00_0000, 8), Net(0xAC10_0000, 12), Net(0xC0A8_0000, 16), Net(0xA9FE_0000, 16)]

  predicate AnyContains(nets: seq<Net>, ip: Addr) { exists n <- nets :: Contains(n, ip) }

  // ---- specification ----

  datatype State = State(operator: seq<Net>, accounts: set<string>, silenced: set<Net>) {
    /** ContainsIP, for a parsed address. */
    predicate Exempt(ip: Addr) {
      AnyContains(BUILTIN_NETS, ip) || AnyContains(operator, ip) || Silent(ip)
    }

    predicate Silent(ip: Addr) { exists n <- silenced :: Contains(n, ip) }

    /** isWhitelisted: the engine drops the event. None is an event without that field. */
    predicate Dropped(ip: Option<Addr>, account: Option<string>) {
      (ip.Some? && Exempt(ip.value)) || (account.Some? && account.value in accounts)
    }
  }

  /** The calls that change a whitelist. An entry text that does not parse is None. */
  datatype Call =
    | AddIp(entry: Option<Target>)
    | RemoveIp(entry: Option<Target>)
    | AddAccount(account: string)
    | RemoveAccount(account: string)
    | Silence(entry: Option<Target>)
    | Unsilence(entry: Option<Target>)

  /** The networks of the readable entries, in order. */
  function EntryNets(entries: seq<Option<Target>>): seq<Net> {
    if entries == [] then []
    else
      var last := entries[|entries| - 1];
      EntryNets(entries[..|entries| - 1]) + (if last.Some? then [NetOf(last.value)] else [])
  }

  function Without(s: seq<Net>, n: Net): seq<Net> {
    if s == [] then []
    else Without(s[..|s| - 1], n) + (if s[|s| - 1] != n then [s[|s| - 1]] else [])
  }

  function Apply(s: State, c: Call): State {
    match c
    case AddIp(e) => if e.Some? then s.(operator := s.operator + [NetOf(e.value)]) else s
    case RemoveIp(e) => if e.Some? then s.(operator := Without(s.operator, NetOf(e.value))) else s
    case AddAccount(a) => s.(accounts := s.accounts + {a})
    case RemoveAccount(a) => s.(accounts := s.accounts - {a})
    case Silence(e) => if e.Some? then s.(silenced := s.silenced + {NetOf(e.value)}) else s
    case Unsilence(e) => if e.Some? then s.(silenced := s.silenced - {NetOf(e.value)}) else s
  }

  function Run(s: State, calls: seq<Call>): State {
    if calls == [] then s else Apply(Run(s, calls[..|calls| - 1]), calls[|calls| - 1])
  }

  predicate IsSilencing(c: Call) { c.Silence? || c.Unsilence? }

  /** The calls of one of the two parties, in order. */
  function Select(calls: seq<Call>, silencing: bool): seq<Call> {
    if calls == [] then []
    else
      var c := calls[|calls| - 1];
      Select(calls[..|calls| - 1], silencing) + (if IsSilencing(c) == silencing then [c] else [])
  }

  // ---- the class ----

  class Whitelist {
    var nets: array<Net>
    var count: nat
    var accounts: set<string>
    var silenced: set<Net>

    ghost predicate Valid() reads this { count <= nets.Length }

    ghost function View(): State
      reads this, nets
      requires Valid()
    {
      State(nets[..count], accounts, silenced)
    }

    /** NewWhitelist: unreadable entries are skipped. */
    constructor (ips: seq<Option<Target>>, accts: seq<string>)
      ensures Valid() && fresh(nets)
      ensures View() == State(EntryNets(ips), set a | a in accts, {})
    {
      nets := new Net[|ips|];
      count := 0;
      accounts := set a | a in accts;
      silenced := {};
      new;
      for i := 0 to |ips|
        invariant count <= i && fresh(nets) && nets.Length == |ips|
        invariant nets[..count] == EntryNets(ips[..i])
        invariant accounts == (set a | a in accts) && silenced == {}
      {
        assert ips[..i + 1][..i] == ips[..i];
        if ips[i].Some? {
          nets[count] := NetOf(ips[i].value);
          count := count + 1;
        }
      }
      assert ips[..|ips|] == ips;
    }

    method ContainsIp(ip: Option<Addr>) returns (r: bool)
      requires Valid()
      ensures r <==> ip.Some? && View().Exempt(ip.value)
    {
      if ip.None? { return false; }
      for i := 0 to |BUILTIN_NETS|
        invariant !AnyContains(BUILTIN_NETS[..i], ip.value)
      {
        if Contains(BUILTIN_NETS[i], ip.value) {
          assert BUILTIN_NETS[i] in BUILTIN_NETS;
          return true;
        }
        assert forall n <- BUILTIN_NETS[..i + 1] :: n in BUILTIN_NETS[..i] || n == BUILTIN_NETS[i];
      }
      assert BUILTIN_NETS[..|BUILTIN_NETS|] == BUILTIN_NETS;
      for i := 0 to count
        invariant !AnyContains(nets[..i], ip.value)
      {
        if Contains(nets[i], ip.value) {
          assert nets[i] in nets[..count];
          return true;
        }
        assert forall n <- nets[..i + 1] :: n in nets[..i] || n == nets[i];
      }
      var rest := silenced;
      while rest != {}
        invariant rest <= silenced
        invariant forall n <- silenced - rest :: !Contains(n, ip.value)
      {
        var n :| n in rest;
        if Contains(n, ip.value) { return true; }
        rest := rest - {n};
      }
      r := false;
    }

    method ContainsAccount(account: string) returns (r: bool)
      requires Valid()
      ensures r <==> account in View().accounts
    {
      r := account in accounts;
    }

    /** isWhitelisted: whether the engine drops an event with these fields. */
    method IsWhitelisted(ip: Option<Addr>, account: Option<string>) returns (r: bool)
      requires Valid()
      ensures r <==> View().Dropped(ip, account)
    {
      r := ContainsIp(ip);
      if !r && account.Some? { r := ContainsAccount(account.value); }
    }

    method DoSilence(entry: Option<Target>)
      requires Valid()
      modifies this
      ensures Valid() && nets == old(nets) && View() == Apply(old(View()), Silence(entry))
    {
      if entry.Some? { silenced := silenced + {NetOf(entry.value)}; }
    }

    method DoUnsilence(entry: Option<Target>)
      requires Valid()
      modifies this
      ensures Valid() && nets == old(nets) && View() == Apply(old(View()), Unsilence(entry))
    {
      if entry.Some? { silenced := silenced - {NetOf(entry.value)}; }
    }

    /** The slice grows in place while it has room, and moves to a larger array otherwise. */
    method DoAddIp(entry: Option<Target>)
      requires Valid()
      modifies this, nets
      ensures Valid() && (nets == old(nets) || fresh(nets)) && View() == Apply(old(View()), AddIp(entry))
    {
      if entry.None? { return; }
      if count == nets.Length {
        var larger := new Net[2 * count + 1];
        for i := 0 to count
          invariant unchanged(this) && unchanged(nets)
          invariant larger[..i] == nets[..i]
        {
          larger[i] := nets[i];
        }
        nets := larger;
      }
      nets[count] := NetOf(entry.value);
      count := count + 1;
    }

    /** Compacts the slice in place: the write index follows the read index. */
    method DoRemoveIp(entry: Option<Target>)
      requires Valid()
      modifies this, nets
      ensures Valid() && nets == old(nets) && View() == Apply(old(View()), RemoveIp(entry))
    {
      if entry.None? { return; }
      var target := NetOf(entry.value);
      ghost var was := nets[..count];
      hide Without, NetOf;
      WithoutNothing(target);
      var kept := 0;
      for i := 0 to count
        invariant kept <= i && count <= nets.Length && nets == old(nets) && count == old(count)
        invariant nets[..kept] == Without(was[..i], target)
        invariant nets[i..count] == was[i..]
        invariant accounts == old(accounts) && silenced == old(silenced)
      {
        assert nets[i] == nets[i..count][0] == was[i];
        assert was[i..][1..] == was[i + 1..] == nets[i..count][1..] == nets[i + 1..count];
        WithoutStep(was, i, target);
        if nets[i] != target {
          nets[kept] := nets[i];
          kept := kept + 1;
        }
      }
      assert was[..|was|] == was;
      count := kept;
    }

    method DoAddAccount(account: string)
      requires Valid()
      modifies this
      ensures Valid() && nets == old(nets) && View() == Apply(old(View()), AddAccount(account))
    {
      accounts := accounts + {account};
    }

    method DoRemoveAccount(account: string)
      requires Valid()
      modifies this
      ensures Valid() && nets == old(nets) && View() == Apply(old(View()), RemoveAccount(account))
    {
      accounts := accounts - {account};
    }

    /** List: what the operator configured, in order, and nothing of the silenced set. */
    method List() returns (ips: seq<Net>, accts: set<string>)
      requires Valid()
      ensures ips == View().operator && accts == View().accounts
    {
      ips := [];
      for i := 0 to count
        invariant ips == nets[..i]
      {
        ips := ips + [nets[i]];
      }
      accts := accounts;
    }
  }

  // ---- properties ----

  /** What is left is what stood at the kept positions; they increase, and are exactly those that
      held another network. */
  ghost predicate KeptAt(s: seq<Net>, n: Net, left: seq<Net>, kept: seq<nat>) {
    && |kept| == |left|
    && (forall k :: 0 <= k < |kept| ==> kept[k] < |s| && left[k] == s[kept[k]] && s[kept[k]] != n)
    && (forall j, k :: 0 <= j < k < |kept| ==> kept[j] < kept[k])
    && (forall i :: 0 <= i < |s| && s[i] != n ==> i in kept)
  }

  /** RemoveIP deletes every copy of its entry and keeps everything else, in order. */
  lemma {:induction false} RemoveKeepsRest(s: seq<Net>, n: Net) returns (kept: seq<nat>)
    ensures KeptAt(s, n, Without(s, n), kept)
  {
    hide KeptAt, Without;
    if s == [] {
      WithoutNothing(n);
      kept := [];
      NothingKept(n);
    } else {
      var last := |s| - 1;
      kept := RemoveKeepsRest(s[..last], n);
      WithoutNext(s, n);
      assert s[..last] + [s[last]] == s && Without(s[..last], n) + [] == Without(s[..last], n);
      KeptAppend(s[..last], s[last], n, Without(s[..last], n), kept);
      if s[last] != n { kept := kept + [last]; }
    }
  }

  lemma NothingKept(n: Net)
    ensures KeptAt([], n, [], [])
  {
  }

  lemma KeptAppend(s: seq<Net>, x: Net, n: Net, left: seq<Net>, kept: seq<nat>)
    requires KeptAt(s, n, left, kept)
    ensures if x != n then KeptAt(s + [x], n, left + [x], kept + [|s|]) else KeptAt(s + [x], n, left, kept)
  {
    var more := kept + [|s|];
    forall i | 0 <= i < |s| && s[i] != n ensures i in kept && i in more {
      var k :| 0 <= k < |kept| && kept[k] == i;
      assert more[k] == i;
    }
    assert more[|kept|] == |s|;
    assert forall k :: 0 <= k < |kept| ==> more[k] == kept[k] && (s + [x])[kept[k]] == s[kept[k]];
    assert forall i :: 0 <= i < |s| ==> (s + [x])[i] == s[i];
  }

  lemma WithoutNext(s: seq<Net>, n: Net)
    requires s != []
    ensures var init, last := s[..|s| - 1], s[|s| - 1];
            Without(s, n) == Without(init, n) + (if last != n then [last] else [])
  {
  }

  lemma WithoutStep(s: seq<Net>, i: nat, n: Net)
    requires i < |s|
    ensures Without(s[..i + 1], n) == Without(s[..i], n) + (if s[i] != n then [s[i]] else [])
  {
    assert s[..i + 1][..i] == s[..i];
  }

  lemma WithoutNothing(n: Net)
    ensures Without([], n) == []
  {
  }

  /** What an operator lists depends on the operator's calls only; what is silenced only on
      the silencing calls: the two never disturb each other in any interleaving. */
  lemma {:induction false} CallsDoNotInterfere(s: State, calls: seq<Call>)
    ensures var end, ops, bans := Run(s, calls), Run(s, Select(calls, false)), Run(s, Select(calls, true));
            && end.operator == ops.operator && end.accounts == ops.accounts
            && end.silenced == bans.silenced
    ensures Run(s, Select(calls, true)).operator
         == s.operator
    ensures Run(s, Select(calls, false)).silenced
         == s.silenced
  {
    if calls != [] {
      hide NetOf, Without;
      var init, c := calls[..|calls| - 1], calls[|calls| - 1];
      CallsDoNotInterfere(s, init);
      SelectLast(s, calls, IsSilencing(c));
      assert Select(calls, !IsSilencing(c)) == Select(init, !IsSilencing(c));
    }
  }

  lemma SelectLast(s: State, calls: seq<Call>, silencing: bool)
    requires calls != [] && IsSilencing(calls[|calls| - 1]) == silencing
    ensures var init, last := calls[..|calls| - 1], calls[|calls| - 1];
            Run(s, Select(calls, silencing)) == Apply(Run(s, Select(init, silencing)), last)
  {
    hide Apply;
    var mine := Select(calls, silencing);
    assert mine[..|mine| - 1] == Select(calls[..|calls| - 1], silencing);
  }

  /** Ending a ban makes an address dispatchable exactly when the ban's network was the only
      thing that covered it: never when a built-in or operator entry does. */
  lemma UnsilenceFreesOnlyBans(s: State, t: Target, ip: Addr)
    ensures s.Exempt(ip) && !Apply(s, Unsilence(Some(t))).Exempt(ip) <==>
            && NetOf(t) in s.silenced && Contains(NetOf(t), ip)
            && (forall n <- s.silenced :: Contains(n, ip) ==> n == NetOf(t))
            && !AnyContains(BUILTIN_NETS, ip) && !AnyContains(s.operator, ip)
  {
    var after := Apply(s, Unsilence(Some(t)));
    assert forall n <- s.silenced :: n in after.silenced || n == NetOf(t);
  }

  /** Over any interleaving: an address a built-in or operator entry covers is exempt,
      whatever was silenced or unsilenced. */
  lemma OperatorExemptionSurvives(s: State, calls: seq<Call>, ip: Addr)
    requires AnyContains(BUILTIN_NETS, ip) || AnyContains(Run(s, Select(calls, false)).operator, ip)
    ensures Run(s, calls).Exempt(ip) && forall account :: Run(s, calls).Dropped(Some(ip), account)
  {
    CallsDoNotInterfere(s, calls);
  }

  /** The events the engine drops for their account depend on the operator's calls only. */
  lemma AccountsAreTheOperators(s: State, calls: seq<Call>, account: Option<string>)
    ensures Run(s, calls).Dropped(None, account)
       <==> Run(s, Select(calls, false)).Dropped(None, account)
  {
    CallsDoNotInterfere(s, calls);
  }

  /** The built-in networks cover exactly the internal addresses. */
  lemma BuiltinExact(ip: Addr)
    ensures AnyContains(BUILTIN_NETS, ip)
       <==> InternalAddress(ip)
  {
    hide Contains;
    assert BUILTIN_NETS == [BUILTIN_NETS[0]] + BUILTIN_NETS[1..];
    assert forall n :: n in BUILTIN_NETS <==> InternalNet(n);
  }

  /** What each call changes for an address: an added or silenced entry exempts what it covers besides;
      a removed one leaves the operator's other networks; unreadable entries and accounts change nothing. */
  lemma CallsDoForIps(s: State, c: Call, ip: Addr)
    ensures Apply(s, c).Exempt(ip) <==>
              match c
              case AddIp(e) => s.Exempt(ip) || (e.Some? && Covers(e.value, ip))
              case Silence(e) => s.Exempt(ip) || (e.Some? && Covers(e.value, ip))
              case RemoveIp(e) =>
                || AnyContains(BUILTIN_NETS, ip) || s.Silent(ip)
                || exists n <- s.operator :: (e.Some? ==> n != NetOf(e.value)) && Contains(n, ip)
              case Unsilence(e) =>
                || AnyContains(BUILTIN_NETS, ip) || AnyContains(s.operator, ip)
                || exists n <- s.silenced :: (e.Some? ==> n != NetOf(e.value)) && Contains(n, ip)
              case AddAccount(_) => s.Exempt(ip)
              case RemoveAccount(_) => s.Exempt(ip)
  {
    hide Contains, NetOf, Covers;
    match c
    case AddIp(e) => if e.Some? { NormalizeSound(e.value); }
    case Silence(e) => if e.Some? { NormalizeSound(e.value); }
    case RemoveIp(e) => if e.Some? { WithoutExact(s.operator, NetOf(e.value)); }
    case _ =>
  }

  lemma {:induction false} WithoutExact(s: seq<Net>, n: Net)
    ensures forall x :: x in Without(s, n) <==> x in s && x != n
  {
    if s != [] {
      assert s == s[..|s| - 1] + [s[|s| - 1]];
      WithoutExact(s[..|s| - 1], n);
    }
  }

  /** And for an account. */
  lemma CallsDoForAccounts(s: State, c: Call, account: string)
    ensures Apply(s, c).Dropped(None, Some(account)) <==>
              (s.Dropped(None, Some(account)) || c == AddAccount(account)) && c != RemoveAccount(account)
  {
  }
}
