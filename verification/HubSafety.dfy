/** The quarantine, end to end: from any run of the hub to the chats it publishes. */
module HubSafety {
  import opened Common
  import opened HubModel
  import opened HubQuarantine
  import opened HubHistory
  import opened HubPublishing

  /** Whatever else happened, no session that is still ambiguous to a consumer, and nothing at all while
      an account switch awaits its inventory, is among the published chats of any account. */
  lemma HubHidesAmbiguous(h: Hub, ops: seq<Op>, staleAfter: int, n: nat, u: string, x: string,
                          account: string, refs: seq<ActivityRef>, now: Instant)
    requires n <= |ops| && u in h.entries && h.entries[u] == FreshEntry("") && x != ""
    requires ValidRun(ReportsOf(ops, n, u))
    requires Awaiting(ReportsOf(ops, n, u), |ReportsOf(ops, n, u)|) || Ambiguous(ReportsOf(ops, n, u), |ReportsOf(ops, n, u)|, x)
    ensures ChatKey(u, x) !in Projected(HubAt(h, ops, staleAfter, n).entries, account, refs, now, staleAfter)
  {
    hide HubAt, At, Shown, Projected, Awaiting, Ambiguous, ValidRun, HookIds;
    var run := ReportsOf(ops, n, u);
    EntryIsOwnRun(h, ops, staleAfter, n, u);
    ProjectedExactly(HubAt(h, ops, staleAfter, n).entries, account, refs, now, staleAfter, u, x);
    AmbiguousNeverShown(run, |run|, x, account, HookIds(refs, u), now, staleAfter);
  }

  /** A session seen at a consumer's account switch is not published from then on, until one complete
      good observation of that consumer shows it in neither the inventory nor the hooks. */
  lemma HubQuarantineSafety(h: Hub, ops: seq<Op>, staleAfter: int, n: nat, u: string, i: nat, j: nat, x: string,
                            account: string, refs: seq<ActivityRef>, now: Instant)
    requires n <= |ops| && u in h.entries && h.entries[u] == FreshEntry("") && x != ""
    requires ValidRun(ReportsOf(ops, n, u)) && i <= j < |ReportsOf(ops, n, u)|
    requires SeenAtSwitch(ReportsOf(ops, n, u), i, j, x)
    requires forall k :: j < k < |ReportsOf(ops, n, u)| ==> !Clears(ReportsOf(ops, n, u), k, x)
    ensures ChatKey(u, x) !in Projected(HubAt(h, ops, staleAfter, n).entries, account, refs, now, staleAfter)
  {
    hide HubAt, At, Shown, Projected, SeenAtSwitch, Clears, ValidRun, HookIds;
    var run := ReportsOf(ops, n, u);
    EntryIsOwnRun(h, ops, staleAfter, n, u);
    ProjectedExactly(HubAt(h, ops, staleAfter, n).entries, account, refs, now, staleAfter, u, x);
    QuarantineSafety(run, i, j, |run|, x, account, HookIds(refs, u), now, staleAfter);
  }
}
