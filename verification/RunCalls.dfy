/** The calls of a registration run, read off its log: which calls each phase makes, what the
    wait has seen, and how many calls there are. */
module RunCalls {
  import opened Options
  import opened RpcLog
  import opened UnlockWait
  import opened RegistrationRun
  import PortPlan

  // ----- the phases of a log

  /** The calls up to the wait: creations, opening of the genesis wallet, transfers. */
  function BeforeWait(run: Run, r: nat): Log
    requires |run.fundings| == |Created(run)|
  {
    CreationsEvents(run.creations) + run.opening + FundingsEvents(Created(run), run.fundings, r)
  }

  /** The places of the log at which the wait starts and ends. */
  function WaitStarts(run: Run, r: nat): nat
    requires |run.fundings| == |Created(run)|
  {
    |BeforeWait(run, r)|
  }

  function WaitEnds(run: Run, r: nat): nat
    requires |run.fundings| == |Created(run)|
  {
    WaitStarts(run, r) + |RoundsEvents(run.rounds)|
  }

  lemma RunParts(run: Run, r: nat)
    requires Shaped(run)
    ensures RunLog(run, r)
         == BeforeWait(run, r) + RoundsEvents(run.rounds) + RegistrationsEvents(Funded(run), run.registrations)
  {
  }

  // ----- what the wait has seen

  lemma FoundInside(a: Log, w: Log, b: Log, t: int, id: nat, r: nat)
    requires 3 <= t <= |w|
    ensures FoundUnlocked(a + w + b, |a| + t, id, r) <==> FoundUnlocked(w, t, id, r)
  {
    var log := a + w + b;
    assert log[|a| + t - 3] == w[t - 3] && log[|a| + t - 2] == w[t - 2] && log[|a| + t - 1] == w[t - 1];
  }

  lemma FoundInWait(a: Log, w: Log, b: Log, id: nat, r: nat)
    ensures (exists t :: |a| + 3 <= t <= |a| + |w| && FoundUnlocked(a + w + b, t, id, r)) <==>
            exists t :: FoundUnlocked(w, t, id, r)
  {
    if t :| FoundUnlocked(w, t, id, r) {
      FoundInside(a, w, b, t, id, r);
      assert FoundUnlocked(a + w + b, |a| + t, id, r);
    }
    if t :| |a| + 3 <= t <= |a| + |w| && FoundUnlocked(a + w + b, t, id, r) {
      FoundInside(a, w, b, t - |a|, id, r);
    }
  }

  /** A run's wait has seen a wallet unlocked if and only if, between its first and its last
      call, the log has that wallet opened with an answer and a balance that suffices. */
  lemma SeenInRun(run: Run, r: nat, id: nat)
    requires Shaped(run)
    ensures SeenUnlocked(run.rounds, r, id) <==>
            exists t :: WaitStarts(run, r) + 3 <= t <= WaitEnds(run, r) && FoundUnlocked(RunLog(run, r), t, id, r)
  {
    RunParts(run, r);
    SeenInLog(run.rounds, r, id);
    FoundInWait(BeforeWait(run, r), RoundsEvents(run.rounds), RegistrationsEvents(Funded(run), run.registrations),
                id, r);
  }

  // ----- which calls a phase makes

  /** Phase 1 creates wallets with the numbers 1..n and asks for addresses. */
  predicate Creating(q: Request, n: nat) {
    q.GetAddress? || (q.CreateWallet? && q.wallet.Sn? && 1 <= q.wallet.id <= n)
  }

  /** Phase 2 opens the genesis wallet only, and sends requirement and fee to the nodes. */
  predicate Paying(q: Request, nodes: seq<Node>, r: nat) {
    || q == OpenWallet(Genesis) || q == Refresh || q == GetBalance
    || (q.Transfer? && q.amount == r + 1_000_000_000 && exists node :: node in nodes && node.address == q.address)
  }

  /** Phase 3 opens the nodes' wallets only. */
  predicate Polling(q: Request, nodes: seq<Node>) {
    || q == Refresh || q == GetBalance
    || (q.OpenWallet? && exists node :: node in nodes && q.wallet == Sn(node.id))
  }

  /** Phase 4 does too, and asks each node's own daemon for a command with that node's
      address. */
  predicate Registering(q: Request, nodes: seq<Node>) {
    || Polling(q, nodes) || q.Register?
    || (q.GetRegistrationCmd? && exists node :: node in nodes && q.address == node.address
                                                && q.port == PortPlan.Port(PortPlan.ServiceRpc(node.id)))
  }

  lemma {:induction false} CreationCalls(cs: seq<Creation>, n: nat)
    requires |cs| <= n
    ensures forall e :: e in CreationsEvents(cs) ==> Creating(e.request, n)
  {
    if cs == [] {
    } else {
      CreationCalls(cs[..|cs| - 1], n);
    }
  }

  lemma {:induction false} AskCalls(asks: seq<Ask>, nodes: seq<Node>, r: nat)
    ensures forall e :: e in AsksEvents(Genesis, asks) ==> Paying(e.request, nodes, r)
  {
    if asks == [] {
    } else {
      AskCalls(asks[..|asks| - 1], nodes, r);
    }
  }

  lemma FundingCalls(node: Node, f: Funding, nodes: seq<Node>, r: nat)
    requires node in nodes
    ensures forall e :: e in FundingEvents(node, f, r) ==> Paying(e.request, nodes, r)
  {
    AskCalls(f.asks, nodes, r);
  }

  lemma {:induction false} FundingsCalls(some: seq<Node>, fs: seq<Funding>, nodes: seq<Node>, r: nat)
    requires |some| == |fs| && forall node :: node in some ==> node in nodes
    ensures forall e :: e in FundingsEvents(some, fs, r) ==> Paying(e.request, nodes, r)
  {
    if fs == [] {
    } else {
      var n := |fs| - 1;
      FundingsCalls(some[..n], fs[..n], nodes, r);
      FundingCalls(some[n], fs[n], nodes, r);
    }
  }

  lemma RegistrationCalls(node: Node, g: Registration, nodes: seq<Node>)
    requires node in nodes
    ensures forall e :: e in RegistrationEvents(node, g) ==> Registering(e.request, nodes)
  {
    assert PortPlan.Port(PortPlan.ServiceRpc(node.id)) == SN_RPC_BASE_PORT + node.id;
  }

  lemma {:induction false} RegistrationsCalls(some: seq<Node>, gs: seq<Registration>, nodes: seq<Node>)
    requires |some| == |gs| && forall node :: node in some ==> node in nodes
    ensures forall e :: e in RegistrationsEvents(some, gs) ==> Registering(e.request, nodes)
  {
    if gs == [] {
    } else {
      var n := |gs| - 1;
      RegistrationsCalls(some[..n], gs[..n], nodes);
      RegistrationCalls(some[n], gs[n], nodes);
    }
  }

  lemma PollsKind(ps: seq<Poll>, t: nat)
    requires t < |PollsEvents(ps)|
    ensures var q := PollsEvents(ps)[t].request; q.OpenWallet? || q == Refresh || q == GetBalance
  {
    PollsAt(ps);
    assert PolledAt(PollsEvents(ps), t / 3, ps[t / 3]);
  }

  lemma WaitCalls(run: Run, n: nat, r: nat)
    requires IsRun(run, n, r)
    ensures forall e :: e in RoundsEvents(run.rounds) ==> Polling(e.request, Funded(run))
  {
    var log := RoundsEvents(run.rounds);
    forall e | e in log
      ensures Polling(e.request, Funded(run))
    {
      var t :| 0 <= t < |log| && log[t] == e;
      RoundsArePolls(run.rounds);
      PollsKind(AllPolls(run.rounds), t);
      if e.request.OpenWallet? {
        var id := WaitOpens(run.rounds, Ids(Funded(run)), r, t);
        IdsMembers(Funded(run));
      }
    }
  }

  /** The call at place t of a log that consists of the four phases. */
  lemma CallAt(c: Log, p: Log, w: Log, b: Log, t: nat, n: nat, created: seq<Node>, funded: seq<Node>, r: nat)
    requires t < |c + p + w + b| && |c| == 2 * n
    requires forall e :: e in c ==> Creating(e.request, n)
    requires forall e :: e in p ==> Paying(e.request, created, r)
    requires forall e :: e in w ==> Polling(e.request, funded)
    requires forall e :: e in b ==> Registering(e.request, funded)
    ensures var q := (c + p + w + b)[t].request;
            if t < 2 * n then Creating(q, n)
            else if t < |c + p| then Paying(q, created, r)
            else if t < |c + p| + |w| then Polling(q, funded)
            else Registering(q, funded)
  {
    var e := (c + p + w + b)[t];
    if t < |c| {
      assert e in c;
    } else if t < |c + p| {
      assert e in p;
    } else if t < |c + p| + |w| {
      assert e in w;
    } else {
      assert e in b;
    }
  }

  lemma OpeningCalls(opening: Log, nodes: seq<Node>, r: nat)
    requires opening == [] || IsOpening(opening)
    ensures forall e :: e in opening ==> Paying(e.request, nodes, r)
  {
  }

  lemma PayingJoin(a: Log, b: Log, nodes: seq<Node>, r: nat)
    requires forall e :: e in a ==> Paying(e.request, nodes, r)
    requires forall e :: e in b ==> Paying(e.request, nodes, r)
    ensures forall e :: e in a + b ==> Paying(e.request, nodes, r)
  {
  }

  /** Each phase of a run makes its own kind of calls and no other. */
  lemma PhaseCalls(run: Run, n: nat, r: nat, t: nat)
    requires IsRun(run, n, r) && t < |RunLog(run, r)|
    ensures 2 * n <= WaitStarts(run, r) <= WaitEnds(run, r) <= |RunLog(run, r)|
    ensures var q := RunLog(run, r)[t].request;
            if t < 2 * n then Creating(q, n)
            else if t < WaitStarts(run, r) then Paying(q, Created(run), r)
            else if t < WaitEnds(run, r) then Polling(q, Funded(run))
            else Registering(q, Funded(run))
  {
    var c, f := CreationsEvents(run.creations), FundingsEvents(Created(run), run.fundings, r);
    var w, b := RoundsEvents(run.rounds), RegistrationsEvents(Funded(run), run.registrations);
    RunParts(run, r);
    LogAssoc(c, run.opening, f);
    CreationsSize(run.creations);
    CreationCalls(run.creations, n);
    OpeningCalls(run.opening, Created(run), r);
    FundingsCalls(Created(run), run.fundings, Created(run), r);
    PayingJoin(run.opening, f, Created(run), r);
    WaitCalls(run, n, r);
    RegistrationsCalls(Funded(run), run.registrations, Funded(run));
    CallAt(c, run.opening + f, w, b, t, n, Created(run), Funded(run), r);
  }

  // ----- how many calls there are

  lemma {:induction false} AsksSize(wallet: Wallet, asks: seq<Ask>)
    ensures |AsksEvents(wallet, asks)| == 3 * |asks|
  {
    if asks == [] {
    } else {
      AsksSize(wallet, asks[..|asks| - 1]);
    }
  }

  lemma {:induction false} FundingsSize(nodes: seq<Node>, fs: seq<Funding>, r: nat)
    requires |nodes| == |fs| && forall f :: f in fs ==> IsFunding(f, r)
    ensures |FundingsEvents(nodes, fs, r)| <= 364 * |fs|
    ensures (forall f :: f in fs ==> f.transfer.None?) ==> |FundingsEvents(nodes, fs, r)| == 363 * |fs|
  {
    if fs == [] {
    } else {
      var n := |fs| - 1;
      FundingsSize(nodes[..n], fs[..n], r);
      assert fs[n] in fs;
      AsksSize(Genesis, fs[n].asks);
    }
  }

  lemma {:induction false} RegistrationsSize(nodes: seq<Node>, gs: seq<Registration>)
    requires |nodes| == |gs|
    ensures 3 * |gs| <= |RegistrationsEvents(nodes, gs)| <= 5 * |gs|
  {
    if gs == [] {
    } else {
      RegistrationsSize(nodes[..|gs| - 1], gs[..|gs| - 1]);
    }
  }

  lemma {:induction false} PendingOfSize(ids: seq<nat>, pending: set<nat>)
    ensures |PendingOf(ids, pending)| <= |ids|
    ensures (forall id :: id in ids ==> id in pending) ==> PendingOf(ids, pending) == ids
  {
    if ids == [] {
    } else {
      var init := ids[..|ids| - 1];
      PendingOfSize(init, pending);
      assert ids == init + [ids[|ids| - 1]];
    }
  }

  lemma TimesMore(most: nat, n: nat)
    ensures most * (n + 1) == most * n + most
  {
  }

  lemma {:induction false} AllPollsAtMost(rounds: seq<Round>, most: nat)
    requires forall k :: 0 <= k < |rounds| ==> |rounds[k].polls| <= most
    ensures |AllPolls(rounds)| <= most * |rounds|
  {
    if rounds == [] {
    } else {
      AllPollsAtMost(rounds[..|rounds| - 1], most);
      TimesMore(most, |rounds| - 1);
    }
  }

  lemma {:induction false} AllPollsEach(rounds: seq<Round>, each: nat)
    requires forall k :: 0 <= k < |rounds| ==> |rounds[k].polls| == each
    ensures |AllPolls(rounds)| == each * |rounds|
  {
    if rounds == [] {
    } else {
      AllPollsEach(rounds[..|rounds| - 1], each);
      TimesMore(each, |rounds| - 1);
    }
  }

  lemma RoundsSize(rounds: seq<Round>)
    ensures |RoundsEvents(rounds)| == 3 * |AllPolls(rounds)|
  {
    RoundsArePolls(rounds);
    PollsAt(AllPolls(rounds));
  }

  lemma PolledSize(rounds: seq<Round>, ids: seq<nat>, r: nat, k: nat)
    requires Waited(rounds, ids, r) && k < |rounds|
    ensures |rounds[k].polls| == |PendingOf(ids, rounds[k].pending)| <= |ids|
  {
    PendingOfSize(ids, rounds[k].pending);
    assert |PolledIds(rounds[k].polls)| == |rounds[k].polls|;
  }

  lemma AtMostRetries(most: nat, n: nat)
    requires n <= 120
    ensures most * n <= 120 * most
  {
  }

  lemma WaitSize(rounds: seq<Round>, ids: seq<nat>, r: nat)
    requires IsWait(rounds, ids, r)
    ensures |RoundsEvents(rounds)| <= 360 * |ids|
  {
    forall k | 0 <= k < |rounds| ensures |rounds[k].polls| <= |ids| {
      PolledSize(rounds, ids, r, k);
    }
    AllPollsAtMost(rounds, |ids|);
    RoundsSize(rounds);
    AtMostRetries(|ids|, |rounds|);
  }

  /** No run makes more than 364 calls for each node with an address and 365 for each one that
      was funded, beside the two for each creation and the two that open the genesis
      wallet. */
  lemma RunSize(run: Run, n: nat, r: nat)
    requires IsRun(run, n, r)
    ensures |RunLog(run, r)| <= 2 * n + 2 + 364 * |Created(run)| + 365 * |Funded(run)|
  {
    RunParts(run, r);
    CreationsSize(run.creations);
    FundingsSize(Created(run), run.fundings, r);
    RegistrationsSize(Funded(run), run.registrations);
    if Funded(run) != [] {
      WaitSize(run.rounds, Ids(Funded(run)), r);
    }
  }

  // ----- a run without funds

  lemma {:induction false} AskShown(wallet: Wallet, asks: seq<Ask>, k: nat)
    requires k < |asks|
    ensures exists e :: e in AsksEvents(wallet, asks) && e.reply == asks[k].balance
  {
    var n := |asks| - 1;
    var step := AskEvents(wallet, asks[n]);
    assert step[2] in AsksEvents(wallet, asks);
    if k < n {
      AskShown(wallet, asks[..n], k);
      var e :| e in AsksEvents(wallet, asks[..n]) && e.reply == asks[k].balance;
      assert e in AsksEvents(wallet, asks);
    }
  }

  ghost predicate NothingShown(log: Log, amount: nat) {
    forall e :: e in log ==> !Shows(e.reply, amount)
  }

  lemma NothingShownSplit(a: Log, b: Log, amount: nat)
    requires NothingShown(a + b, amount)
    ensures NothingShown(a, amount) && NothingShown(b, amount)
  {
    assert forall e :: e in a || e in b ==> e in a + b;
  }

  lemma NoTransfer(node: Node, f: Funding, r: nat)
    requires IsFunding(f, r) && NothingShown(FundingEvents(node, f, r), r + FEE)
    ensures f.transfer.None?
  {
    var asks := AsksEvents(Genesis, f.asks);
    AskShown(Genesis, f.asks, |f.asks| - 1);
    var e :| e in asks && e.reply == f.asks[|f.asks| - 1].balance;
    assert e in FundingEvents(node, f, r);
  }

  lemma {:induction false} NoTransfers(nodes: seq<Node>, fs: seq<Funding>, r: nat)
    requires |nodes| == |fs| && (forall f :: f in fs ==> IsFunding(f, r))
    requires NothingShown(FundingsEvents(nodes, fs, r), r + FEE)
    ensures forall f :: f in fs ==> f.transfer.None?
  {
    if fs == [] {
    } else {
      var n := |fs| - 1;
      NothingShownSplit(FundingsEvents(nodes[..n], fs[..n], r), FundingEvents(nodes[n], fs[n], r), r + FEE);
      NoTransfers(nodes[..n], fs[..n], r);
      assert fs[n] in fs;
      NoTransfer(nodes[n], fs[n], r);
      forall f | f in fs
        ensures f.transfer.None?
      {
        assert f in fs[..n] || f == fs[n];
      }
    }
  }

  lemma {:induction false} KeptNone<T, S>(xs: seq<T>, steps: seq<S>, keep: S -> bool)
    requires |xs| == |steps| && forall s :: s in steps ==> !keep(s)
    ensures Kept(xs, steps, keep) == []
  {
    if xs == [] {
    } else {
      var n := |xs| - 1;
      KeptNone(xs[..n], steps[..n], keep);
      assert steps[n] in steps;
    }
  }

  /** If no reply ever shows requirement and fee, nobody is funded, and each node with an
      address has cost exactly 121 balance requests of three calls. */
  lemma StarvedRun(run: Run, n: nat, r: nat)
    requires IsRun(run, n, r) && NothingShown(RunLog(run, r), r + 1_000_000_000)
    ensures Funded(run) == []
    ensures |RunLog(run, r)| == 2 * n + (if Created(run) == [] then 0 else 2) + 363 * |Created(run)|
  {
    var f := FundingsEvents(Created(run), run.fundings, r);
    assert forall e :: e in f ==> e in RunLog(run, r);
    NoTransfers(Created(run), run.fundings, r);
    KeptNone(Created(run), run.fundings, Paid);
    RunParts(run, r);
    CreationsSize(run.creations);
    FundingsSize(Created(run), run.fundings, r);
  }

  // ----- a wait for funds that stay locked

  ghost predicate AllShort(rounds: seq<Round>, r: nat) {
    forall k, p :: 0 <= k < |rounds| && p in rounds[k].polls ==> Short(p.ask.balance, r)
  }

  lemma {:induction false} LockedRound(rounds: seq<Round>, ids: seq<nat>, r: nat, k: nat)
    requires Waited(rounds, ids, r) && AllShort(rounds, r) && k < |rounds|
    ensures rounds[k].pending == (set id | id in ids) == LeftBy(rounds, k, r)
    ensures |rounds[k].polls| == |ids|
  {
    if k > 0 {
      LockedRound(rounds, ids, r, k - 1);
    }
    PolledSize(rounds, ids, r, k);
    PendingOfSize(ids, rounds[k].pending);
    forall id ensures id in LeftBy(rounds, k, r) <==> id in ids {
      RoundPolls(rounds, ids, r, k, id);
    }
  }

  /** If every balance of the wait is shown to be short, the wait asks every wallet 120 times
      and ends with all of them pending. */
  lemma LockedWait(rounds: seq<Round>, ids: seq<nat>, r: nat)
    requires IsWait(rounds, ids, r) && AllShort(rounds, r) && ids != []
    ensures |rounds| == 120 && |RoundsEvents(rounds)| == 360 * |ids|
    ensures LeftBy(rounds, |rounds| - 1, r) == set id | id in ids
  {
    forall k | 0 <= k < |rounds| ensures |rounds[k].polls| == |ids| {
      LockedRound(rounds, ids, r, k);
    }
    LockedRound(rounds, ids, r, |rounds| - 1);
    assert ids[0] in LeftBy(rounds, |rounds| - 1, r);
    AllPollsEach(rounds, |ids|);
    RoundsSize(rounds);
  }

  // ----- one attempt, read off its calls

  lemma {:induction false} AsksAt(wallet: Wallet, asks: seq<Ask>, k: nat)
    requires k < |asks|
    ensures var log := AsksEvents(wallet, asks);
            && |log| == 3 * |asks| && Asked(log, 3 * k + 3, wallet)
            && log[3 * k + 2].reply == asks[k].balance
  {
    var n := |asks| - 1;
    AsksSize(wallet, asks[..n]);
    if k < n {
      AsksAt(wallet, asks[..n], k);
    }
  }

  /** The three calls before place t ask for the genesis wallet's balance and are shown enough
      for the requirement and a fee of one coin. */
  predicate Affords(log: Log, t: int, r: nat) {
    Asked(log, t, Genesis) && log[t - 1].reply.Result? && log[t - 1].reply.unlocked >= r + 1_000_000_000
  }

  /** An attempt at funding asks for the genesis wallet's balance, up to 121 times, until it
      can afford the transfer; then, and only then, it makes the transfer. */
  lemma FundingAttempt(node: Node, f: Funding, r: nat, k: nat)
    requires IsFunding(f, r) && 1 <= k <= |f.asks|
    ensures var log := FundingEvents(node, f, r);
            && |f.asks| <= 121 && Asked(log, 3 * k, Genesis)
            && (k < |f.asks| ==> !Affords(log, 3 * k, r))
            && (if Affords(log, 3 * |f.asks|, r)
                then |log| == 3 * |f.asks| + 1
                     && log[|log| - 1].request == Transfer(r + 1_000_000_000, node.address)
                else |f.asks| == 121 && |log| == 363)
            && (Paid(f) <==> |log| == 3 * |f.asks| + 1 && log[|log| - 1].reply.Result?)
  {
    AsksAt(Genesis, f.asks, k - 1);
    AsksAt(Genesis, f.asks, |f.asks| - 1);
    assert AsksEvents(Genesis, f.asks) <= FundingEvents(node, f, r);
  }

  /** An attempt at registration stops after the balance exactly when that was shown to be
      below the requirement, and after the command exactly when there was none. */
  lemma RegistrationAttempt(node: Node, g: Registration, r: nat)
    requires IsRegistration(g, r)
    ensures var log := RegistrationEvents(node, g);
            && 3 <= |log| <= 5 && Asked(log, 3, Sn(node.id))
            && (|log| == 3 <==> log[2].reply.Result? && log[2].reply.unlocked < r)
            && (|log| > 3 ==> log[3].request == GetRegistrationCmd(18200 + node.id, node.address))
            && (|log| == 4 ==> log[3].reply.NoResult? || log[3].reply.text == "")
            && (|log| == 5 ==> log[3].reply.Result? && log[3].reply.text != ""
                               && log[4].request == Register(log[3].reply.text))
            && (Submits(g) <==> |log| == 5)
            && (Accepted(g) <==> |log| == 5 && log[4].reply.Result?)
  {
  }

  lemma SafeTransfer(log: Log, t: nat, r: nat)
    requires Safe(log, r) && t < |log| && log[t].request.Transfer?
    ensures log[t].request.amount == r + 1_000_000_000 && Affords(log, t, r)
  {
    assert SafeAt(log, t, r);
  }

  /** In every run, a transfer comes straight after a balance of the genesis wallet that affords
      it. */
  lemma EveryTransfer(run: Run, n: nat, r: nat, t: nat)
    requires IsRun(run, n, r) && t < |RunLog(run, r)| && RunLog(run, r)[t].request.Transfer?
    ensures RunLog(run, r)[t].request.amount == r + 1_000_000_000 && Affords(RunLog(run, r), t, r)
  {
    RunEffects(run, n, r);
    SafeTransfer(RunLog(run, r), t, r);
  }

  /** The calls before place t have asked for the balance of the node's wallet, which was not
      shown to be below the requirement, and for the command of the node's daemon, which is
      what is submitted. */
  predicate Checked(log: Log, t: int, node: Node, r: nat) {
    && 4 <= t < |log| && Asked(log, t - 1, Sn(node.id))
    && !(log[t - 2].reply.Result? && log[t - 2].reply.unlocked < r)
    && log[t - 1].request == GetRegistrationCmd(18200 + node.id, node.address)
    && log[t - 1].reply.Result? && log[t - 1].reply.text != ""
    && log[t].request == Register(log[t - 1].reply.text)
  }

  lemma SafeSubmission(log: Log, t: nat, r: nat) returns (node: Node)
    requires Safe(log, r) && t < |log| && log[t].request.Register?
    ensures node in EffectsOf(log).submitted && Checked(log, t, node, r)
  {
    assert SafeAt(log, t, r);
    node := Submitter(log, t, r);
    SubmitterCounted(log, t, r);
  }

  /** In every run, a submission is made for one of the nodes submitted and is checked. */
  lemma EverySubmission(run: Run, n: nat, r: nat, t: nat) returns (node: Node)
    requires IsRun(run, n, r) && t < |RunLog(run, r)| && RunLog(run, r)[t].request.Register?
    ensures node in Submitted(run) && Checked(RunLog(run, r), t, node, r)
  {
    RunEffects(run, n, r);
    node := SafeSubmission(RunLog(run, r), t, r);
  }
}
