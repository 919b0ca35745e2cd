/** Safety of session publication over whole runs of one user's reports. */
module HubQuarantine {
  import opened Common
  import opened HubModel

  /** The user's entry before report `i`. */
  function At(expected: string, run: seq<Report>, i: nat): Entry
    requires i <= |run|
  {
    if i == 0 then FreshEntry(expected) else Receive(At(expected, run, i - 1), run[i - 1])
  }

  predicate ValidRun(run: seq<Report>) {
    forall i :: 0 <= i < |run| ==> ValidSnapshot(run[i].snapshot)
  }

  predicate Accepted(expected: string, run: seq<Report>, i: nat)
    requires i < |run|
  {
    !Late(At(expected, run, i), run[i].snapshot)
  }

  // ----- ordering -----

  lemma NextAt(expected: string, run: seq<Report>, i: nat)
    requires i < |run|
    ensures At(expected, run, i + 1) == Receive(At(expected, run, i), run[i])
    ensures At(expected, run, i + 1) ==
            if Accepted(expected, run, i) then Accept(At(expected, run, i), run[i].snapshot, run[i].hooks, run[i].now)
            else At(expected, run, i)
  {
  }

  lemma {:induction false} CurrentIsNewest(expected: string, run: seq<Report>, i: nat)
    requires i <= |run| && ValidRun(run)
    ensures var at := At(expected, run, i).current.observedAt;
            if i == 0 then IsZero(at)
            else !IsZero(at) && (forall j :: 0 <= j < i ==> run[j].snapshot.observedAt <= at)
                 && exists j :: 0 <= j < i && run[j].snapshot.observedAt == at
  {
    hide NextQuarantine, NextRuntime, NextRuntimeAt, NextPending, Accounted;
    if i > 0 {
      CurrentIsNewest(expected, run, i - 1);
    }
  }

  /** The hub only moves forward: a report counts exactly when it is newer than every earlier one. */
  lemma AcceptedIffNewest(expected: string, run: seq<Report>, i: nat)
    requires i < |run| && ValidRun(run)
    ensures Accepted(expected, run, i) <==>
            forall j :: 0 <= j < i ==> run[j].snapshot.observedAt < run[i].snapshot.observedAt
  {
    CurrentIsNewest(expected, run, i);
    hide At;
  }

  // ----- invariant -----

  /** A kept good snapshot: it names an account and carries no session ids. */
  predicate GoodSnapshot(s: Snapshot) {
    s.state.Ok? && s.account != "" && s.runtime == map[] && UniqueIds(s.quota.limits)
  }

  /** What holds of an entry after any reports. */
  predicate EntryInv(e: Entry) {
    && e.runtime.Keys !! e.quarantine
    && (e.pending ==> e.runtime == map[])
    && "" !in e.runtime
    && (e.lastGood.Some? <==> e.lastGoodAt.Some?)
    && (e.lastGood.Some? ==> GoodSnapshot(e.lastGood.value))
    && (e.current.state.Ok? ==> e.lastGood == Some(e.current) && e.lastGoodAt == Some(e.lastSeenAt))
    && (Consumer(e) && e.membership != "" ==> e.lastGood.Some? && e.lastGood.value.account == e.membership)
    && (!Consumer(e) ==> e.membership == "" && e.runtime == map[] && e.quarantine == {} && !e.pending)
  }

  lemma TrackedKeeps(e: Entry, s: Snapshot, hooks: set<string>, now: Instant)
    requires EntryInv(e) && ValidSnapshot(s)
    ensures var t := Tracked(e, s, hooks, now);
            && t.runtime.Keys !! t.quarantine && (t.pending ==> t.runtime == map[]) && "" !in t.runtime
            && (!Consumer(e) ==> t.runtime == map[] && t.quarantine == {} && !t.pending)
  {
  }

  lemma AcceptKeeps(e: Entry, s: Snapshot, hooks: set<string>, now: Instant)
    requires EntryInv(e) && ValidSnapshot(s)
    ensures EntryInv(Accept(e, s, hooks, now))
  {
    hide NextQuarantine, NextRuntime, NextRuntimeAt, NextPending;
    TrackedKeeps(e, s, hooks, now);
  }

  lemma {:induction false} AtInv(expected: string, run: seq<Report>, i: nat)
    requires i <= |run| && ValidRun(run)
    ensures EntryInv(At(expected, run, i)) && At(expected, run, i).expected == expected
  {
    if i > 0 {
      AtInv(expected, run, i - 1);
      NextAt(expected, run, i - 1);
      AcceptKeeps(At(expected, run, i - 1), run[i - 1].snapshot, run[i - 1].hooks, run[i - 1].now);
      hide EntryInv, At, NextQuarantine, NextRuntime, NextRuntimeAt, NextPending, Accounted;
    }
  }

  // ----- what the reports themselves say -----

  predicate Switches(expected: string, run: seq<Report>, i: nat)
    requires i < |run|
  {
    Accepted(expected, run, i) && ConsumerSwitch(At(expected, run, i), run[i].snapshot)
  }

  /** The account of the last good report before `i`. */
  function LastAccount(expected: string, run: seq<Report>, i: nat): string
    requires i <= |run|
  {
    if i == 0 then ""
    else if Accepted(expected, run, i - 1) && run[i - 1].snapshot.state.Ok? then run[i - 1].snapshot.account
    else LastAccount(expected, run, i - 1)
  }

  lemma {:induction false} GoodAccountIsLast(expected: string, run: seq<Report>, i: nat)
    requires i <= |run|
    ensures GoodAccount(At(expected, run, i)) == LastAccount(expected, run, i)
  {
    hide NextQuarantine, NextRuntime, NextRuntimeAt, NextPending;
    if i > 0 { GoodAccountIsLast(expected, run, i - 1); }
  }

  /** A consumer switches accounts when a good report names another account than the last good one,
      whatever was reported in between. */
  lemma SwitchesIff(run: seq<Report>, i: nat)
    requires i < |run| && ValidRun(run)
    ensures Switches("", run, i) <==>
            && Accepted("", run, i) && run[i].snapshot.state.Ok?
            && LastAccount("", run, i) !in {"", run[i].snapshot.account}
  {
    GoodAccountIsLast("", run, i);
    AtInv("", run, i);
    hide EntryInv, At, LastAccount;
  }

  /** A complete good observation: an accepted good report with a successful inventory. */
  predicate Observes(run: seq<Report>, i: nat)
    requires i < |run|
  {
    Accepted("", run, i) && run[i].snapshot.state.Ok? && run[i].snapshot.runtimeRead
  }

  /** The observation that shows a session gone from the inventory and from the hooks. */
  predicate Clears(run: seq<Report>, i: nat, x: string)
    requires i < |run|
  {
    Observes(run, i) && x !in run[i].snapshot.runtime && x !in run[i].hooks
  }

  /** Before `n`, the latest switch without an inventory has not been followed by an inventory. */
  predicate Awaiting(run: seq<Report>, n: nat)
    requires n <= |run|
  {
    exists i :: 0 <= i < n && Switches("", run, i) && !Observes(run, i) && forall k :: i < k < n ==> !Observes(run, k)
  }

  /** Report `j` makes session `x` ambiguous: it is in the hooks or inventory of a switch, or in the
      first inventory after a switch that had none. */
  predicate Enters(run: seq<Report>, j: nat, x: string)
    requires j < |run|
  {
    || (Switches("", run, j) && x in run[j].hooks)
    || (Observes(run, j) && x in run[j].snapshot.runtime && (Switches("", run, j) || Awaiting(run, j)))
  }

  lemma AwaitingStep(run: seq<Report>, n: nat)
    requires n < |run|
    ensures Awaiting(run, n + 1) <==> !Observes(run, n) && (Switches("", run, n) || Awaiting(run, n))
  {
    hide Switches, Observes;
    if Awaiting(run, n + 1) {
      var i :| 0 <= i < n + 1 && Switches("", run, i) && !Observes(run, i) && forall k :: i < k < n + 1 ==> !Observes(run, k);
      assert i < n ==> Awaiting(run, n);
    }
    if !Observes(run, n) && Awaiting(run, n) {
      var i :| 0 <= i < n && Switches("", run, i) && !Observes(run, i) && forall k :: i < k < n ==> !Observes(run, k);
      assert forall k :: i < k < n + 1 ==> !Observes(run, k);
    }
  }

  lemma PendingStep(run: seq<Report>, n: nat)
    requires n < |run|
    ensures At("", run, n + 1).pending <==> !Observes(run, n) && (Switches("", run, n) || At("", run, n).pending)
  {
    NextAt("", run, n);
    AtConsumer(run, n);
    hide At, NextQuarantine, NextRuntime, NextRuntimeAt, Accounted;
  }

  lemma {:induction false} PendingExact(run: seq<Report>, n: nat)
    requires n <= |run|
    ensures At("", run, n).pending <==> Awaiting(run, n)
  {
    hide Observes, Switches, Receive;
    if n > 0 {
      PendingExact(run, n - 1);
      PendingStep(run, n - 1);
      AwaitingStep(run, n - 1);
      hide At, Awaiting;
    }
  }

  lemma {:induction false} AtConsumer(run: seq<Report>, n: nat)
    requires n <= |run|
    ensures Consumer(At("", run, n))
  {
    hide NextQuarantine, NextRuntime, NextRuntimeAt, NextPending, Accounted;
    if n > 0 { AtConsumer(run, n - 1); }
  }

  lemma QuarantineStep(run: seq<Report>, n: nat, x: string)
    requires n < |run|
    ensures x in At("", run, n + 1).quarantine <==>
            Enters(run, n, x) || (x in At("", run, n).quarantine && !Clears(run, n, x))
  {
    NextAt("", run, n);
    PendingExact(run, n);
    AtConsumer(run, n);
    hide At, Awaiting, NextRuntime, NextRuntimeAt, NextPending, Accounted;
  }

  predicate Ambiguous(run: seq<Report>, n: nat, x: string)
    requires n <= |run|
  {
    exists j :: 0 <= j < n && Enters(run, j, x) && forall k :: j < k < n ==> !Clears(run, k, x)
  }

  lemma AmbiguousStep(run: seq<Report>, n: nat, x: string)
    requires n < |run|
    ensures Ambiguous(run, n + 1, x) <==> Enters(run, n, x) || (Ambiguous(run, n, x) && !Clears(run, n, x))
  {
    hide Enters, Clears;
    if Ambiguous(run, n + 1, x) {
      var j :| 0 <= j < n + 1 && Enters(run, j, x) && forall k :: j < k < n + 1 ==> !Clears(run, k, x);
      assert j < n ==> Ambiguous(run, n, x);
    }
    if Ambiguous(run, n, x) && !Clears(run, n, x) {
      var j :| 0 <= j < n && Enters(run, j, x) && forall k :: j < k < n ==> !Clears(run, k, x);
      assert forall k :: j < k < n + 1 ==> !Clears(run, k, x);
    }
  }

  /** A session is quarantined exactly when some report made it ambiguous and no later complete
      observation has shown it gone. */
  lemma {:induction false} QuarantineExact(run: seq<Report>, n: nat, x: string)
    requires n <= |run|
    ensures x in At("", run, n).quarantine <==> Ambiguous(run, n, x)
  {
    hide Clears, Enters, Receive;
    if n > 0 {
      QuarantineExact(run, n - 1, x);
      QuarantineStep(run, n - 1, x);
      AmbiguousStep(run, n - 1, x);
      hide At, Ambiguous;
    }
  }

  // ----- safety and completeness of what is shown -----

  /** Nothing ambiguous is ever shown, under any account, whatever the hooks report: not while a
      switch still awaits its inventory, and not a session that is still ambiguous. */
  lemma AmbiguousNeverShown(run: seq<Report>, n: nat, x: string, account: string, hooks: set<string>, now: Instant, staleAfter: int)
    requires n <= |run| && ValidRun(run)
    requires Awaiting(run, n) || Ambiguous(run, n, x)
    ensures x !in Shown(At("", run, n), account, hooks, now, staleAfter)
  {
    PendingExact(run, n);
    QuarantineExact(run, n, x);
    AtInv("", run, n);
    hide At, Awaiting, Ambiguous;
  }

  /** Report `i` switched accounts and `x` was seen there: in its hooks, in its inventory, or, when the
      inventory failed, in the first later one, `j`. */
  predicate SeenAtSwitch(run: seq<Report>, i: nat, j: nat, x: string)
    requires i <= j < |run|
  {
    && Switches("", run, i)
    && (|| (j == i && (x in run[i].hooks || (Observes(run, i) && x in run[i].snapshot.runtime)))
        || (i < j && Observes(run, j) && x in run[j].snapshot.runtime && forall k :: i <= k < j ==> !Observes(run, k)))
  }

  lemma SeenEnters(run: seq<Report>, i: nat, j: nat, x: string)
    requires i <= j < |run| && SeenAtSwitch(run, i, j, x)
    ensures Enters(run, j, x)
    ensures forall n :: i < n <= j ==> Awaiting(run, n)
  {
    hide Switches, Observes;
  }

  /** A session seen at a switch stays hidden from then on until a complete good observation shows it
      absent from both the inventory and the hooks. */
  lemma QuarantineSafety(run: seq<Report>, i: nat, j: nat, n: nat, x: string,
                         account: string, hooks: set<string>, now: Instant, staleAfter: int)
    requires ValidRun(run) && i <= j < |run| && i < n <= |run| && SeenAtSwitch(run, i, j, x)
    requires forall k :: j < k < n ==> !Clears(run, k, x)
    ensures x !in Shown(At("", run, n), account, hooks, now, staleAfter)
  {
    SeenEnters(run, i, j, x);
    hide Shown, At, Enters, Clears, Awaiting, SeenAtSwitch;
    if j < n { assert Ambiguous(run, n, x); }
    AmbiguousNeverShown(run, n, x, account, hooks, now, staleAfter);
  }

  /** Nothing else is hidden: a session that hooks report is shown under the user's account unless a
      switch awaits its inventory or the session is ambiguous. */
  lemma UnambiguousShown(run: seq<Report>, n: nat, x: string, hooks: set<string>, now: Instant, staleAfter: int)
    requires n <= |run| && ValidRun(run) && x != "" && x in hooks
    ensures x in Shown(At("", run, n), At("", run, n).membership, hooks, now, staleAfter)
            <==> !Awaiting(run, n) && !Ambiguous(run, n, x)
  {
    PendingExact(run, n);
    QuarantineExact(run, n, x);
    AtInv("", run, n);
    AtConsumer(run, n);
    hide At, Awaiting, Ambiguous;
  }

  /** Once the observation that shows it gone has passed, and until another switch, the id is free. */
  lemma ClearedIsFree(run: seq<Report>, k: nat, n: nat, x: string)
    requires k < n <= |run| && Clears(run, k, x) && forall j :: k <= j < n ==> !Switches("", run, j)
    ensures !Ambiguous(run, n, x) && !Awaiting(run, n)
  {
    hide Observes, Switches;
    assert forall j :: k < j < n ==> !Awaiting(run, j);
    assert !Enters(run, k, x);
  }

  // ----- the inventory that is shown -----

  /** Between `i` and `n` the user only sent good reports of the same account without an inventory. */
  predicate OnlyGaps(run: seq<Report>, i: nat, n: nat)
    requires n <= |run|
  {
    forall k :: i < k < n && Accepted("", run, k) ==>
      run[k].snapshot.state.Ok? && !run[k].snapshot.runtimeRead && !Switches("", run, k)
  }

  predicate InventoryFrom(run: seq<Report>, i: nat, n: nat, x: string)
    requires i < n <= |run|
  {
    && Observes(run, i) && !Switches("", run, i) && x in run[i].snapshot.runtime
    && At("", run, n).runtimeAt == run[i].now && OnlyGaps(run, i, n)
  }

  lemma InventoryStep(run: seq<Report>, n: nat, x: string)
    requires n < |run| && ValidRun(run) && x in At("", run, n + 1).runtime
    ensures || InventoryFrom(run, n, n + 1, x)
            || (x in At("", run, n).runtime && At("", run, n + 1).runtimeAt == At("", run, n).runtimeAt
                && (Accepted("", run, n) ==>
                      run[n].snapshot.state.Ok? && !run[n].snapshot.runtimeRead && !Switches("", run, n)))
  {
    NextAt("", run, n);
    AtConsumer(run, n);
    hide At, NextPending, Accounted;
  }

  lemma InventoryExtends(run: seq<Report>, i: nat, n: nat, x: string)
    requires i < n < |run| && InventoryFrom(run, i, n, x)
    requires At("", run, n + 1).runtimeAt == At("", run, n).runtimeAt
    requires Accepted("", run, n) ==>
               run[n].snapshot.state.Ok? && !run[n].snapshot.runtimeRead && !Switches("", run, n)
    ensures InventoryFrom(run, i, n + 1, x)
  {
    hide At, Switches, Observes, Accepted;
  }

  /** A session taken from an inventory was in one complete observation of the same sign-in. */
  lemma {:induction false} InventoryProvenance(run: seq<Report>, n: nat, x: string)
    requires n <= |run| && ValidRun(run) && x in At("", run, n).runtime
    ensures exists i :: 0 <= i < n && InventoryFrom(run, i, n, x)
  {
    hide Receive, InventoryFrom, Switches, Accepted;
    if n > 0 {
      InventoryStep(run, n - 1, x);
      hide At;
      if !InventoryFrom(run, n - 1, n, x) {
        InventoryProvenance(run, n - 1, x);
        var i :| 0 <= i < n - 1 && InventoryFrom(run, i, n - 1, x);
        InventoryExtends(run, i, n - 1, x);
      }
    }
  }

  /** What is shown without a hook was listed by the App Server at most 90 seconds ago. */
  lemma ShownIsRecent(run: seq<Report>, n: nat, x: string, account: string, hooks: set<string>, now: Instant, staleAfter: int)
    requires n <= |run| && ValidRun(run)
    requires x !in hooks && x in Shown(At("", run, n), account, hooks, now, staleAfter)
    ensures exists i :: 0 <= i < n && InventoryFrom(run, i, n, x) && now <= run[i].now + RUNTIME_GRACE
  {
    assert x in At("", run, n).runtime;
    InventoryProvenance(run, n, x);
    hide At, Observes, OnlyGaps;
    var i :| 0 <= i < n && InventoryFrom(run, i, n, x);
    assert RuntimeRecent(At("", run, n), now);
  }

  // ----- what belongs to an account stays with it -----

  /** A report after which nothing of the earlier account may be carried over. */
  predicate Boundary(expected: string, run: seq<Report>, i: nat)
    requires i < |run|
  {
    EndsSignIn(At(expected, run, i), run[i].snapshot)
  }

  /** In terms of the reports: an accepted sign-out, API key, or account other than the last good one. */
  lemma BoundaryIff(expected: string, run: seq<Report>, i: nat)
    requires i < |run|
    ensures Boundary(expected, run, i) <==>
            && Accepted(expected, run, i)
            && (run[i].snapshot.state in {SignedOut, ApiKey}
                || (run[i].snapshot.state.Ok? && LastAccount(expected, run, i) !in {"", run[i].snapshot.account}))
  {
    GoodAccountIsLast(expected, run, i);
    hide At, LastAccount;
  }

  lemma ReceiveVersion(e: Entry, r: Report)
    ensures Receive(e, r).accountVersion == e.accountVersion + if EndsSignIn(e, r.snapshot) then 1 else 0
  {
    hide NextQuarantine, NextRuntime, NextRuntimeAt, NextPending;
  }

  function Version(expected: string, run: seq<Report>, i: nat): int {
    if i <= |run| then At(expected, run, i).accountVersion else 0
  }

  predicate EndsAt(expected: string, run: seq<Report>, i: nat) {
    i < |run| && Boundary(expected, run, i)
  }

  lemma VersionStep(expected: string, run: seq<Report>, i: nat)
    requires i < |run|
    ensures Version(expected, run, i + 1) == Version(expected, run, i) + if EndsAt(expected, run, i) then 1 else 0
  {
    NextAt(expected, run, i);
    hide At, Receive, Accept, EndsSignIn;
    ReceiveVersion(At(expected, run, i), run[i]);
  }

  /** The account version tells exactly whether a sign-out or account change lies in between. */
  lemma VersionTells(expected: string, run: seq<Report>, m: nat, n: nat)
    requires m <= n <= |run|
    ensures At(expected, run, m).accountVersion <= At(expected, run, n).accountVersion
    ensures At(expected, run, m).accountVersion == At(expected, run, n).accountVersion <==>
            forall i :: m <= i < n ==> !Boundary(expected, run, i)
  {
    hide At, Boundary;
    assert Version(expected, run, m) == At(expected, run, m).accountVersion;
    assert Version(expected, run, n) == At(expected, run, n).accountVersion;
    assert forall i: nat :: m <= i < n ==> EndsAt(expected, run, i) == Boundary(expected, run, i);
    hide Version, EndsAt;
    forall i: nat | m <= i < n
      ensures Version(expected, run, i + 1) == Version(expected, run, i) + if EndsAt(expected, run, i) then 1 else 0
    {
      VersionStep(expected, run, i);
    }
    var raises := (i: nat) => EndsAt(expected, run, i);
    CounterTells((i: nat) => Version(expected, run, i), raises, m, n);
    assert forall i: nat :: m <= i < n ==> raises(i) == Boundary(expected, run, i);
  }

  /** Report `i` is where the entry's lifetime total came from. */
  predicate LifetimeFrom(expected: string, run: seq<Report>, i: nat, value: int)
    requires i < |run|
  {
    Accepted(expected, run, i) && run[i].snapshot.state.Ok? && run[i].snapshot.lifetime == Some(value)
  }

  predicate RecentFrom(expected: string, run: seq<Report>, i: nat, recent: map<string, string>)
    requires i < |run|
  {
    Accepted(expected, run, i) && run[i].snapshot.state.Ok? && run[i].snapshot.recentRead && run[i].snapshot.recent == recent
  }

  predicate NoBoundary(expected: string, run: seq<Report>, i: nat, n: nat)
    requires n <= |run|
  {
    forall k :: i < k < n ==> !Boundary(expected, run, k)
  }

  lemma CarryStep(expected: string, run: seq<Report>, i: nat)
    requires i < |run| && ValidRun(run)
    ensures var e, f := At(expected, run, i), At(expected, run, i + 1);
            && (f.lifetime.Some? ==> LifetimeFrom(expected, run, i, f.lifetime.value) || (f.lifetime == e.lifetime && !Boundary(expected, run, i)))
            && (f.recent != map[] ==> RecentFrom(expected, run, i, f.recent) || (f.recent == e.recent && !Boundary(expected, run, i)))
  {
    NextAt(expected, run, i);
    hide At, NextQuarantine, NextRuntime, NextRuntimeAt, NextPending;
  }

  /** A kept lifetime total or thread-name index was reported by a good report with no sign-out and no
      account change since. */
  lemma {:induction false} NothingCarriedOver(expected: string, run: seq<Report>, n: nat)
    requires n <= |run| && ValidRun(run)
    ensures var e := At(expected, run, n);
            && (e.lifetime.Some? ==>
                  exists i :: 0 <= i < n && LifetimeFrom(expected, run, i, e.lifetime.value) && NoBoundary(expected, run, i, n))
            && (e.recent != map[] ==>
                  exists i :: 0 <= i < n && RecentFrom(expected, run, i, e.recent) && NoBoundary(expected, run, i, n))
  {
    hide Boundary, LifetimeFrom, RecentFrom, Receive;
    if n > 0 {
      NothingCarriedOver(expected, run, n - 1);
      CarryStep(expected, run, n - 1);
      var e, f := At(expected, run, n - 1), At(expected, run, n);
      hide At;
      assert forall i :: 0 <= i < n - 1 && NoBoundary(expected, run, i, n - 1) && !Boundary(expected, run, n - 1) ==> NoBoundary(expected, run, i, n);
      assert NoBoundary(expected, run, n - 1, n);
    }
  }
}
