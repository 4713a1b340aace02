/** The events the parser emits and the detectors consume, and the alerts they raise. */
module Events {
  import opened Time

  datatype Kind =
    | AuthFailed | AuthSuccess | QueueAccepted | RecipientAdded
    | MessageSent | MessageBounce | MessageDeferred

  /** Texts the source leaves empty are "". */
  datatype Event = Event(
    kind: Kind, ts: Nanos, process: string, queueId: string, account: string, domain: string,
    ip: string, extra: map<string, string>, raw: string)

  datatype Action = BlockIp | SuspendAccount | NotifyOnly

  datatype Alert = Alert(moduleName: string, score: nat, action: Action, ts: Nanos, ip: string, account: string)

  /** The part behind the last "@"; "" without one. */
  function ExtractDomain(account: string): (d: string)
    ensures '@' !in d
    ensures '@' in account ==> exists i :: 0 <= i < |account| && account[i] == '@' && account[i + 1..] == d
    ensures '@' !in account ==> d == ""
  {
    if account == "" then ""
    else if '@' in account[1..] then
      var d := ExtractDomain(account[1..]);
      assert exists i :: 0 <= i < |account| && account[i] == '@' && account[i + 1..] == d by {
        var i :| 0 <= i < |account[1..]| && account[1..][i] == '@' && account[1..][i + 1..] == d;
        assert account[i + 1] == '@' && account[i + 2..] == d;
      }
      d
    else if account[0] == '@' then account[1..]
    else ""
  }
}
