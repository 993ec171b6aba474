/** Whole runs of the parallel registration: every call it makes, with arbitrary replies, and
    what follows for the nodes. */
module RegistrationRun {
  import opened Options
  import opened RpcLog
  import opened UnlockWait

  // ----- lists of nodes

  function Ids(nodes: seq<Node>): (ids: seq<nat>)
    ensures |ids| == |nodes|
  {
    seq(|nodes|, i requires 0 <= i < |nodes| => nodes[i].id)
  }

  lemma IdsSnoc(nodes: seq<Node>, node: Node)
    ensures Ids(nodes + [node]) == Ids(nodes) + [node.id]
    ensures nodes + [] == nodes
  {
  }

  ghost predicate Increasing(ids: seq<nat>) {
    forall i, j :: 0 <= i < j < |ids| ==> ids[i] < ids[j]
  }

  /** The members of xs whose steps are kept, in order. */
  function Kept<T, S>(xs: seq<T>, steps: seq<S>, keep: S -> bool): seq<T>
    requires |xs| == |steps|
  {
    if xs == [] then []
    else Kept(xs[..|xs| - 1], steps[..|xs| - 1], keep) + if keep(steps[|xs| - 1]) then [xs[|xs| - 1]] else []
  }

  /** The places in b, in increasing order, where the members of a stand. */
  ghost predicate Places<T>(at: seq<nat>, a: seq<T>, b: seq<T>) {
    && |at| == |a| && Increasing(at)
    && forall i :: 0 <= i < |at| ==> at[i] < |b| && a[i] == b[at[i]]
  }

  ghost predicate Subsequence<T(!new)>(a: seq<T>, b: seq<T>) {
    exists at :: Places(at, a, b)
  }

  lemma PlacesSnoc<T>(at: seq<nat>, a: seq<T>, b: seq<T>, x: T)
    requires Places(at, a, b)
    ensures Places(at, a + [], b + []) && Places(at, a + [], b + [x]) && Places(at + [|b|], a + [x], b + [x])
  {
    assert a + [] == a && b + [] == b;
  }

  lemma {:induction false} KeptPlaces<T, S>(xs: seq<T>, steps: seq<S>, keep: S -> bool) returns (at: seq<nat>)
    requires |xs| == |steps|
    ensures Places(at, Kept(xs, steps, keep), xs)
  {
    if xs == [] {
      at := [];
    } else {
      var n := |xs| - 1;
      at := KeptPlaces(xs[..n], steps[..n], keep);
      assert xs == xs[..n] + [xs[n]];
      PlacesSnoc(at, Kept(xs[..n], steps[..n], keep), xs[..n], xs[n]);
      if keep(steps[n]) {
        at := at + [n];
      }
    }
  }

  lemma KeptSnoc<T, S>(xs: seq<T>, k: nat, steps: seq<S>, step: S, keep: S -> bool)
    requires k < |xs| && |steps| == k
    ensures Kept(xs[..k + 1], steps + [step], keep) == Kept(xs[..k], steps, keep) + if keep(step) then [xs[k]] else []
  {
    assert xs[..k + 1][..k] == xs[..k] && (steps + [step])[..k] == steps;
  }

  lemma KeptSubsequence<T(!new), S>(xs: seq<T>, steps: seq<S>, keep: S -> bool)
    requires |xs| == |steps|
    ensures Subsequence(Kept(xs, steps, keep), xs)
  {
    var at := KeptPlaces(xs, steps, keep);
  }

  /** A stricter test keeps a subsequence. */
  lemma {:induction false} KeptPlacesFewer<T, S>(xs: seq<T>, steps: seq<S>, keep: S -> bool, strict: S -> bool)
    returns (at: seq<nat>)
    requires |xs| == |steps| && forall s :: s in steps && strict(s) ==> keep(s)
    ensures Places(at, Kept(xs, steps, strict), Kept(xs, steps, keep))
  {
    if xs == [] {
      at := [];
    } else {
      var n := |xs| - 1;
      at := KeptPlacesFewer(xs[..n], steps[..n], keep, strict);
      var more := Kept(xs[..n], steps[..n], keep);
      PlacesSnoc(at, Kept(xs[..n], steps[..n], strict), more, xs[n]);
      if strict(steps[n]) {
        assert steps[n] in steps;
        at := at + [|more|];
      }
    }
  }

  lemma {:induction false} KeptAll<T, S>(xs: seq<T>, steps: seq<S>, keep: S -> bool)
    requires |xs| == |steps| && forall s :: s in steps ==> keep(s)
    ensures Kept(xs, steps, keep) == xs
  {
    if xs == [] {
    } else {
      var n := |xs| - 1;
      KeptAll(xs[..n], steps[..n], keep);
      assert steps[n] in steps && xs == xs[..n] + [xs[n]];
    }
  }

  lemma SubsequenceIncreasing(a: seq<Node>, b: seq<Node>)
    requires Subsequence(a, b) && Increasing(Ids(b))
    ensures Increasing(Ids(a))
  {
    var at :| Places(at, a, b);
    forall i, j | 0 <= i < j < |a|
      ensures Ids(a)[i] < Ids(a)[j]
    {
      assert Ids(a)[i] == Ids(b)[at[i]] && Ids(a)[j] == Ids(b)[at[j]];
    }
  }

  lemma SubsequenceMembers(a: seq<Node>, b: seq<Node>)
    requires Subsequence(a, b)
    ensures forall node :: node in a ==> node in b
  {
    var at :| Places(at, a, b);
  }

  // ----- phase 1: the creation of the wallets

  /** The replies to creating a wallet and asking for its address. */
  datatype Creation = Creation(onCreate: Reply, onAddress: Reply)

  /** The address that was answered, or none. */
  function Address(c: Creation): string {
    if c.onAddress.Result? then c.onAddress.text else ""
  }

  function CreationEvents(id: nat, c: Creation): Log {
    [Event(CreateWallet(Sn(id)), c.onCreate), Event(GetAddress, c.onAddress)]
  }

  /** The creations of the wallets 1, 2, and so on. */
  function CreationsEvents(cs: seq<Creation>): Log {
    if cs == [] then [] else CreationsEvents(cs[..|cs| - 1]) + CreationEvents(|cs|, cs[|cs| - 1])
  }

  function CreatedBy(cs: seq<Creation>): seq<Node> {
    if cs == [] then []
    else CreatedBy(cs[..|cs| - 1])
         + if Address(cs[|cs| - 1]) != "" then [Node(|cs|, Address(cs[|cs| - 1]))] else []
  }

  // ----- phase 2: the transfers

  /** The balances asked for before a transfer, and the reply to the transfer if it was made. */
  datatype Funding = Funding(asks: seq<Ask>, transfer: Option<Reply>)

  function AsksEvents(wallet: Wallet, asks: seq<Ask>): (log: Log)
    ensures Quiet(log)
  {
    if asks == [] then [] else AsksEvents(wallet, asks[..|asks| - 1]) + AskEvents(wallet, asks[|asks| - 1])
  }

  /** The genesis wallet is asked until it shows requirement and fee, 121 times at most; the
      transfer is made if and only if it did. */
  ghost predicate IsFunding(f: Funding, r: nat) {
    && 1 <= |f.asks| <= MAX_RETRIES + 1
    && (forall k :: 0 <= k < |f.asks| - 1 ==> !Shows(f.asks[k].balance, r + FEE))
    && (f.transfer.Some? <==> Shows(f.asks[|f.asks| - 1].balance, r + FEE))
    && (f.transfer.None? ==> |f.asks| == MAX_RETRIES + 1)
  }

  function FundingEvents(node: Node, f: Funding, r: nat): Log {
    AsksEvents(Genesis, f.asks)
    + if f.transfer.Some? then [Event(Transfer(r + FEE, node.address), f.transfer.value)] else []
  }

  function FundingsEvents(nodes: seq<Node>, fs: seq<Funding>, r: nat): Log
    requires |nodes| == |fs|
  {
    if fs == [] then []
    else FundingsEvents(nodes[..|fs| - 1], fs[..|fs| - 1], r) + FundingEvents(nodes[|fs| - 1], fs[|fs| - 1], r)
  }

  predicate Paid(f: Funding) {
    f.transfer.Some? && f.transfer.value.Result?
  }

  /** One transfer of requirement and fee to each of the nodes. */
  function Payments(nodes: seq<Node>, r: nat): (ps: seq<(nat, string)>)
    ensures |ps| == |nodes|
  {
    seq(|nodes|, i requires 0 <= i < |nodes| => (r + FEE, nodes[i].address))
  }

  function Total(sent: seq<(nat, string)>): nat {
    if sent == [] then 0 else Total(sent[..|sent| - 1]) + sent[|sent| - 1].0
  }

  /** The wallets that were funded cost exactly requirement and fee each. */
  lemma {:induction false} FundingTotal(funded: seq<Node>, r: nat)
    ensures Total(Payments(funded, r)) == |funded| * (r + FEE)
  {
    if funded == [] {
    } else {
      var n := |funded| - 1;
      FundingTotal(funded[..n], r);
      assert Payments(funded, r)[..n] == Payments(funded[..n], r);
      assert |funded| * (r + FEE) == n * (r + FEE) + (r + FEE);
    }
  }

  // ----- phase 4: the registrations

  /** The balance of the node's wallet, the reply to the request for the command and the reply
      to the submission, as far as they were asked for. */
  datatype Registration = Registration(ask: Ask, cmd: Option<Reply>, submit: Option<Reply>)

  function Command(g: Registration): string {
    if g.cmd.Some? && g.cmd.value.Result? then g.cmd.value.text else ""
  }

  /** The command is asked for if and only if the balance was not shown to be short, and
      submitted if and only if there was one. */
  predicate IsRegistration(g: Registration, r: nat) {
    && (g.cmd.Some? <==> !Short(g.ask.balance, r))
    && (g.submit.Some? <==> Command(g) != "")
  }

  function RegistrationEvents(node: Node, g: Registration): Log {
    AskEvents(Sn(node.id), g.ask)
    + (if g.cmd.None? then []
       else [Event(GetRegistrationCmd(SN_RPC_BASE_PORT + node.id, node.address), g.cmd.value)]
            + if g.submit.None? then [] else [Event(Register(Command(g)), g.submit.value)])
  }

  function RegistrationsEvents(nodes: seq<Node>, gs: seq<Registration>): Log
    requires |nodes| == |gs|
  {
    if gs == [] then []
    else RegistrationsEvents(nodes[..|gs| - 1], gs[..|gs| - 1]) + RegistrationEvents(nodes[|gs| - 1], gs[|gs| - 1])
  }

  predicate Submits(g: Registration) {
    g.submit.Some?
  }

  predicate Accepted(g: Registration) {
    g.submit.Some? && g.submit.value.Result?
  }

  // ----- whole runs

  datatype Run = Run(
    creations: seq<Creation>, opening: Log, fundings: seq<Funding>, rounds: seq<Round>,
    registrations: seq<Registration>)

  function Created(run: Run): seq<Node> {
    CreatedBy(run.creations)
  }

  function Funded(run: Run): seq<Node>
    requires |run.fundings| == |Created(run)|
  {
    Kept(Created(run), run.fundings, Paid)
  }

  predicate Shaped(run: Run) {
    |run.fundings| == |Created(run)| && |run.registrations| == |Funded(run)|
  }

  function Submitted(run: Run): seq<Node>
    requires Shaped(run)
  {
    Kept(Funded(run), run.registrations, Submits)
  }

  function Registered(run: Run): seq<Node>
    requires Shaped(run)
  {
    Kept(Funded(run), run.registrations, Accepted)
  }

  /** Before the transfers the genesis wallet is opened and refreshed. */
  predicate IsOpening(opening: Log) {
    |opening| == 2 && opening[0].request == OpenWallet(Genesis) && opening[1].request == Refresh
  }

  /** The wait as a whole: one round at least and 120 at most, and fewer only if nothing is left
      pending. */
  ghost predicate IsWait(rounds: seq<Round>, ids: seq<nat>, r: nat) {
    && 1 <= |rounds| <= MAX_RETRIES && Waited(rounds, ids, r)
    && (|rounds| == MAX_RETRIES || LeftBy(rounds, |rounds| - 1, r) == {})
  }

  /** A run for the nodes 1..n: each wallet is created once; each node with an address gets one
      attempt at funding; if any was funded, there is one wait for all of them, and then
      each funded node gets one attempt at registration. */
  ghost predicate IsRun(run: Run, n: nat, r: nat) {
    && |run.creations| == n
    && Shaped(run)
    && (if Created(run) == [] then run.opening == [] else IsOpening(run.opening))
    && (forall f :: f in run.fundings ==> IsFunding(f, r))
    && (if Funded(run) == [] then run.rounds == [] else IsWait(run.rounds, Ids(Funded(run)), r))
    && (forall g :: g in run.registrations ==> IsRegistration(g, r))
  }

  /** The calls before the registrations. */
  function FundingLog(run: Run, r: nat): Log
    requires |run.fundings| == |Created(run)|
  {
    CreationsEvents(run.creations) + run.opening + FundingsEvents(Created(run), run.fundings, r)
    + RoundsEvents(run.rounds)
  }

  function RunLog(run: Run, r: nat): Log
    requires Shaped(run)
  {
    FundingLog(run, r) + RegistrationsEvents(Funded(run), run.registrations)
  }

  // ----- the effects of the phases

  ghost predicate NoRegistrations(log: Log) {
    forall t :: 0 <= t < |log| ==> !log[t].request.Register?
  }

  lemma CreationEffects(id: nat, c: Creation, r: nat)
    ensures var log := CreationEvents(id, c);
            && Safe(log, r) && NoRegistrations(log)
            && EffectsOf(log) == NOTHING.(created := if Address(c) != "" then [Node(id, Address(c))] else [])
            && (Address(c) != "" ==> HasWallet(log, Node(id, Address(c))))
  {
    var log := CreationEvents(id, c);
    QuietEffects(log[..1], r);
    assert log[..|log| - 1] == log[..1];
    assert Address(c) != "" ==> CreatedAt(log, 1, Node(id, Address(c)));
  }

  lemma {:induction false} CreationsEffects(cs: seq<Creation>, r: nat)
    ensures var log := CreationsEvents(cs);
            && Safe(log, r) && NoRegistrations(log)
            && EffectsOf(log) == NOTHING.(created := CreatedBy(cs))
            && (forall node :: node in CreatedBy(cs) ==> HasWallet(log, node))
  {
    if cs == [] {
    } else {
      var n := |cs| - 1;
      var before, step := CreationsEvents(cs[..n]), CreationEvents(n + 1, cs[n]);
      CreationsEffects(cs[..n], r);
      CreationEffects(n + 1, cs[n], r);
      SafeAppend(before, step, r);
      EffectsAppend(before, step, r);
      forall node | node in CreatedBy(cs)
        ensures HasWallet(before + step, node)
      {
        HasWalletAppend(before, step, node);
      }
    }
  }

  lemma {:induction false} CreatedIncreasing(cs: seq<Creation>)
    ensures Increasing(Ids(CreatedBy(cs)))
    ensures forall node :: node in CreatedBy(cs) ==> 1 <= node.id <= |cs| && node.address != ""
  {
    if cs == [] {
    } else {
      var n := |cs| - 1;
      CreatedIncreasing(cs[..n]);
      var before := CreatedBy(cs[..n]);
      IdsSnoc(before, Node(n + 1, Address(cs[n])));
      forall i | 0 <= i < |before|
        ensures Ids(before)[i] <= n
      {
        assert before[i] in before;
      }
    }
  }

  lemma AsksLast(wallet: Wallet, asks: seq<Ask>)
    requires asks != []
    ensures var log := AsksEvents(wallet, asks);
            Asked(log, |log|, wallet) && log[|log| - 1].reply == asks[|asks| - 1].balance
  {
  }

  lemma TransferEffects(asks: Log, reply: Reply, node: Node, r: nat)
    requires Quiet(asks) && Asked(asks, |asks|, Genesis) && Shows(asks[|asks| - 1].reply, r + FEE)
    ensures var log := asks + [Event(Transfer(r + FEE, node.address), reply)];
            && Safe(log, r) && NoRegistrations(log)
            && EffectsOf(log) == NOTHING.(sent := if reply.Result? then [(r + FEE, node.address)] else [])
            && (reply.Result? ==> HasTransfer(log, node, r))
  {
    var log := asks + [Event(Transfer(r + FEE, node.address), reply)];
    QuietEffects(asks, r);
    assert log[..|log| - 1] == asks;
    assert TransferAllowed(log, |log| - 1, r);
    forall t | 0 <= t < |log|
      ensures SafeAt(log, t, r) && !log[t].request.Register?
    {
      if t < |asks| {
        assert QuietRequest(asks[t].request);
      }
    }
    assert reply.Result? ==> FundedAt(log, |asks|, node, r);
  }

  lemma FundingEffects(node: Node, f: Funding, r: nat)
    requires IsFunding(f, r)
    ensures var log := FundingEvents(node, f, r);
            && Safe(log, r) && NoRegistrations(log)
            && EffectsOf(log) == NOTHING.(sent := if Paid(f) then [(r + FEE, node.address)] else [])
            && (Paid(f) ==> HasTransfer(log, node, r))
  {
    var asks := AsksEvents(Genesis, f.asks);
    QuietEffects(asks, r);
    if f.transfer.Some? {
      AsksLast(Genesis, f.asks);
      TransferEffects(asks, f.transfer.value, node, r);
    } else {
      assert asks + [] == asks;
    }
  }

  lemma PaymentsStep(nodes: seq<Node>, node: Node, r: nat)
    ensures Payments(nodes + [node], r) == Payments(nodes, r) + [(r + FEE, node.address)]
    ensures Payments(nodes + [], r) == Payments(nodes, r) + []
  {
    assert nodes + [] == nodes;
  }

  lemma {:induction false} FundingsEffects(nodes: seq<Node>, fs: seq<Funding>, r: nat)
    requires |nodes| == |fs| && forall f :: f in fs ==> IsFunding(f, r)
    ensures var log := FundingsEvents(nodes, fs, r);
            && Safe(log, r) && NoRegistrations(log)
            && EffectsOf(log) == NOTHING.(sent := Payments(Kept(nodes, fs, Paid), r))
            && (forall node :: node in Kept(nodes, fs, Paid) ==> HasTransfer(log, node, r))
  {
    if fs == [] {
    } else {
      var n := |fs| - 1;
      var before, step := FundingsEvents(nodes[..n], fs[..n], r), FundingEvents(nodes[n], fs[n], r);
      FundingsEffects(nodes[..n], fs[..n], r);
      assert fs[n] in fs;
      FundingEffects(nodes[n], fs[n], r);
      var paid := Kept(nodes[..n], fs[..n], Paid);
      AppendStep(before, step, NOTHING.(sent := Payments(paid, r)),
                 NOTHING.(sent := if Paid(fs[n]) then [(r + FEE, nodes[n].address)] else []), r);
      PaymentsStep(paid, nodes[n], r);
      forall node | node in Kept(nodes, fs, Paid)
        ensures HasTransfer(before + step, node, r)
      {
        HasTransferAppend(before, step, node, r);
      }
    }
  }

  lemma SubmissionEffects(quiet: Log, node: Node, cmd: string, reply: Reply, r: nat)
    requires |quiet| == 4 && Quiet(quiet) && Asked(quiet, 3, Sn(node.id)) && !Short(quiet[2].reply, r)
    requires quiet[3].request == GetRegistrationCmd(SN_RPC_BASE_PORT + node.id, node.address)
    requires quiet[3].reply.Result? && quiet[3].reply.text == cmd != ""
    ensures Safe(quiet + [Event(Register(cmd), reply)], r)
    ensures EffectsOf(quiet + [Event(Register(cmd), reply)])
         == Effects([], [], [node], if reply.Result? then [node] else [])
  {
    var log := quiet + [Event(Register(cmd), reply)];
    QuietEffects(quiet, r);
    assert log[..4] == quiet;
    assert RegistrationAllowed(log, 4, r);
    forall t | 0 <= t < |log|
      ensures SafeAt(log, t, r)
    {
      if t < 4 {
        assert QuietRequest(quiet[t].request);
      }
    }
  }

  lemma RegistrationEffects(node: Node, g: Registration, r: nat)
    requires IsRegistration(g, r)
    ensures Safe(RegistrationEvents(node, g), r)
    ensures EffectsOf(RegistrationEvents(node, g))
         == Effects([], [], if Submits(g) then [node] else [], if Accepted(g) then [node] else [])
  {
    var log := RegistrationEvents(node, g);
    if Submits(g) {
      assert log == log[..4] + [Event(Register(Command(g)), g.submit.value)];
      SubmissionEffects(log[..4], node, Command(g), g.submit.value, r);
    } else {
      QuietEffects(log, r);
    }
  }

  /** Appending one node's registration to those before. */
  lemma RegistrationsStep(before: Log, step: Log, e: Effects, node: Node, g: Registration, r: nat)
    requires Safe(before, r) && EffectsOf(before) == e && e.created == [] && e.sent == []
    requires Safe(step, r)
    requires EffectsOf(step) == Effects([], [], if Submits(g) then [node] else [], if Accepted(g) then [node] else [])
    ensures Safe(before + step, r)
    ensures EffectsOf(before + step)
         == Effects([], [], e.submitted + (if Submits(g) then [node] else []),
                    e.registered + if Accepted(g) then [node] else [])
  {
    AppendStep(before, step, e, EffectsOf(step), r);
  }

  lemma {:induction false} RegistrationsEffects(nodes: seq<Node>, gs: seq<Registration>, r: nat)
    returns (log: Log, e: Effects)
    requires |nodes| == |gs| && forall g :: g in gs ==> IsRegistration(g, r)
    ensures log == RegistrationsEvents(nodes, gs)
    ensures e == Effects([], [], Kept(nodes, gs, Submits), Kept(nodes, gs, Accepted))
    ensures Safe(log, r) && EffectsOf(log) == e
  {
    if gs == [] {
      log, e := [], NOTHING;
    } else {
      var n := |gs| - 1;
      log, e := RegistrationsEffects(nodes[..n], gs[..n], r);
      assert gs[n] in gs;
      var step := RegistrationEvents(nodes[n], gs[n]);
      RegistrationEffects(nodes[n], gs[n], r);
      RegistrationsStep(log, step, e, nodes[n], gs[n], r);
      log := log + step;
      e := EffectsOf(log);
    }
  }

  // ----- what every run brings about

  lemma PlusFunding(created: seq<Node>, sent: seq<(nat, string)>)
    ensures Plus(NOTHING.(created := created), NOTHING.(sent := sent)) == Effects(created, sent, [], [])
  {
  }

  lemma JoinFunding(a: Log, c: Log, created: seq<Node>, funded: seq<Node>, r: nat)
    requires Safe(a, r) && NoRegistrations(a) && EffectsOf(a) == NOTHING.(created := created)
    requires Safe(c, r) && NoRegistrations(c) && EffectsOf(c) == NOTHING.(sent := Payments(funded, r))
    ensures Safe(a + c, r) && NoRegistrations(a + c)
    ensures EffectsOf(a + c) == Effects(created, Payments(funded, r), [], [])
  {
    AppendStep(a, c, EffectsOf(a), EffectsOf(c), r);
    PlusFunding(created, Payments(funded, r));
  }

  lemma QuietAppend(log: Log, quiet: Log, r: nat)
    requires Safe(log, r) && NoRegistrations(log) && Quiet(quiet)
    ensures Safe(log + quiet, r) && NoRegistrations(log + quiet) && EffectsOf(log + quiet) == EffectsOf(log)
  {
    QuietEffects(quiet, r);
    SafeAppend(log, quiet, r);
    EffectsAppend(log, quiet, r);
    PlusNothing(EffectsOf(log));
  }

  lemma JoinPhases(a: Log, b: Log, c: Log, d: Log, created: seq<Node>, funded: seq<Node>, r: nat)
    requires Safe(a, r) && NoRegistrations(a) && EffectsOf(a) == NOTHING.(created := created)
    requires Quiet(b) && Quiet(d)
    requires Safe(c, r) && NoRegistrations(c) && EffectsOf(c) == NOTHING.(sent := Payments(funded, r))
    ensures Safe(a + b + c + d, r) && NoRegistrations(a + b + c + d)
    ensures EffectsOf(a + b + c + d) == Effects(created, Payments(funded, r), [], [])
  {
    QuietAppend(a, b, r);
    JoinFunding(a + b, c, created, funded, r);
    QuietAppend(a + b + c, d, r);
  }

  lemma JoinBacked(a: Log, b: Log, c: Log, d: Log, node: Node, r: nat)
    requires HasWallet(a, node) && HasTransfer(c, node, r)
    ensures Backed(a + b + c + d, node, r)
  {
    HasWalletAppend(a, b, node);
    BackedByTransfer(a + b, c, node, r);
    BackedAppend(a + b + c, d, node, r);
  }

  lemma FundingLogEffects(run: Run, r: nat)
    requires |run.fundings| == |Created(run)| && Quiet(run.opening)
    requires forall f :: f in run.fundings ==> IsFunding(f, r)
    ensures var log := FundingLog(run, r);
            && Safe(log, r) && NoRegistrations(log)
            && EffectsOf(log) == Effects(Created(run), Payments(Funded(run), r), [], [])
            && (forall node :: node in Funded(run) ==> Backed(log, node, r))
  {
    var created, funded := Created(run), Funded(run);
    var a, c := CreationsEvents(run.creations), FundingsEvents(created, run.fundings, r);
    CreationsEffects(run.creations, r);
    FundingsEffects(created, run.fundings, r);
    assert forall node :: node in funded ==> node in created by {
      KeptSubsequence(created, run.fundings, Paid);
      SubsequenceMembers(funded, created);
    }
    JoinPhases(a, run.opening, c, RoundsEvents(run.rounds), created, funded, r);
    forall node | node in funded
      ensures Backed(a + run.opening + c + RoundsEvents(run.rounds), node, r)
    {
      JoinBacked(a, run.opening, c, RoundsEvents(run.rounds), node, r);
    }
  }

  lemma PlusAll(created: seq<Node>, sent: seq<(nat, string)>, submitted: seq<Node>, registered: seq<Node>)
    ensures Plus(Effects(created, sent, [], []), Effects([], [], submitted, registered))
         == Effects(created, sent, submitted, registered)
  {
  }

  lemma JoinRegistrations(a: Log, b: Log, created: seq<Node>, funded: seq<Node>, submitted: seq<Node>,
                          registered: seq<Node>, r: nat)
    requires Safe(a, r) && NoRegistrations(a) && EffectsOf(a) == Effects(created, Payments(funded, r), [], [])
    requires forall node :: node in funded ==> Backed(a, node, r)
    requires Safe(b, r) && EffectsOf(b) == Effects([], [], submitted, registered)
    requires forall node :: node in submitted ==> node in funded
    ensures Safe(a + b, r) && Earned(a + b, r)
    ensures EffectsOf(a + b) == Effects(created, Payments(funded, r), submitted, registered)
  {
    AppendStep(a, b, EffectsOf(a), EffectsOf(b), r);
    PlusAll(created, Payments(funded, r), submitted, registered);
    EarnedAppend(a, b, r);
  }

  /** Every call of every run is allowed where it is made, every registration is for a node
      whose address was answered and then funded, and the effects of the run are exactly
      the lists of its replies. */
  lemma RunEffects(run: Run, n: nat, r: nat)
    requires IsRun(run, n, r)
    ensures var log := RunLog(run, r);
            && Safe(log, r) && Earned(log, r)
            && EffectsOf(log) == Effects(Created(run), Payments(Funded(run), r), Submitted(run), Registered(run))
  {
    FundingLogEffects(run, r);
    var log, e := RegistrationsEffects(Funded(run), run.registrations, r);
    KeptSubsequence(Funded(run), run.registrations, Submits);
    SubsequenceMembers(Submitted(run), Funded(run));
    JoinRegistrations(FundingLog(run, r), RegistrationsEvents(Funded(run), run.registrations), Created(run),
                      Funded(run), Submitted(run), Registered(run), r);
  }

  /** Created, funded, submitted and registered nodes are nested and increasing in 1..n, each
      submitted once at most, and the transfers add up to requirement and fee for each
      funded node. */
  lemma RunLists(run: Run, n: nat, r: nat)
    requires IsRun(run, n, r)
    ensures Increasing(Ids(Created(run))) && forall node :: node in Created(run) ==> 1 <= node.id <= n
    ensures Subsequence(Funded(run), Created(run)) && Increasing(Ids(Funded(run)))
    ensures Subsequence(Submitted(run), Funded(run)) && Increasing(Ids(Submitted(run)))
    ensures Subsequence(Registered(run), Submitted(run)) && Increasing(Ids(Registered(run)))
    ensures Total(EffectsOf(RunLog(run, r)).sent) == |Funded(run)| * (r + FEE)
  {
    CreatedIncreasing(run.creations);
    KeptSubsequence(Created(run), run.fundings, Paid);
    SubsequenceIncreasing(Funded(run), Created(run));
    KeptSubsequence(Funded(run), run.registrations, Submits);
    SubsequenceIncreasing(Submitted(run), Funded(run));
    var at := KeptPlacesFewer(Funded(run), run.registrations, Submits, Accepted);
    SubsequenceIncreasing(Registered(run), Submitted(run));
    RunEffects(run, n, r);
    FundingTotal(Funded(run), r);
  }

  lemma IdsMembers(nodes: seq<Node>)
    ensures forall id :: id in Ids(nodes) <==> exists n :: n in nodes && n.id == id
  {
    forall id | id in Ids(nodes)
      ensures exists n :: n in nodes && n.id == id
    {
      var i :| 0 <= i < |nodes| && Ids(nodes)[i] == id;
      assert nodes[i] in nodes;
    }
    forall n | n in nodes
      ensures n.id in Ids(nodes)
    {
      var i :| 0 <= i < |nodes| && nodes[i] == n;
      assert Ids(nodes)[i] == n.id;
    }
  }

  /** The wait of a run that leaves nothing pending has seen all funded wallets unlocked if and
      only if each was answered in the poll after which it left the wait. */
  lemma RunWait(run: Run, n: nat, r: nat)
    requires IsRun(run, n, r) && Funded(run) != []
    ensures LeftBy(run.rounds, |run.rounds| - 1, r) == {} ==>
              ((forall node :: node in Funded(run) ==> SeenUnlocked(run.rounds, r, node.id))
               <==> LeavesAnswered(run.rounds, r))
  {
    var ids := Ids(Funded(run));
    RunLists(run, n, r);
    IdsMembers(Funded(run));
    if LeftBy(run.rounds, |run.rounds| - 1, r) == {} {
      EmptyPendingMeansUnlocked(run.rounds, ids, r);
    }
  }

  // ----- a run in which every call is answered with enough

  predicate Generous(reply: Reply, r: nat) {
    reply.Result? && reply.text != "" && reply.unlocked >= r + FEE
  }

  ghost predicate AllGenerous(log: Log, r: nat) {
    forall e :: e in log ==> Generous(e.reply, r)
  }

  lemma GenerousSplit(a: Log, b: Log, r: nat)
    requires AllGenerous(a + b, r)
    ensures AllGenerous(a, r) && AllGenerous(b, r)
  {
    assert forall e :: e in a || e in b ==> e in a + b;
  }

  lemma {:induction false} GenerousCreations(cs: seq<Creation>, r: nat)
    requires AllGenerous(CreationsEvents(cs), r)
    ensures |CreatedBy(cs)| == |cs|
  {
    if cs == [] {
    } else {
      var n := |cs| - 1;
      GenerousSplit(CreationsEvents(cs[..n]), CreationEvents(n + 1, cs[n]), r);
      GenerousCreations(cs[..n], r);
      assert CreationEvents(n + 1, cs[n])[1].reply == cs[n].onAddress;
    }
  }

  lemma GenerousFunding(node: Node, f: Funding, r: nat)
    requires IsFunding(f, r) && AllGenerous(FundingEvents(node, f, r), r)
    ensures Paid(f)
  {
    var asks, log := AsksEvents(Genesis, f.asks), FundingEvents(node, f, r);
    AsksLast(Genesis, f.asks);
    assert log[|asks| - 1] in log && log[|log| - 1] in log;
  }

  lemma {:induction false} GenerousFundings(nodes: seq<Node>, fs: seq<Funding>, r: nat)
    requires |nodes| == |fs| && (forall f :: f in fs ==> IsFunding(f, r))
    requires AllGenerous(FundingsEvents(nodes, fs, r), r)
    ensures forall f :: f in fs ==> Paid(f)
  {
    if fs == [] {
    } else {
      var n := |fs| - 1;
      GenerousSplit(FundingsEvents(nodes[..n], fs[..n], r), FundingEvents(nodes[n], fs[n], r), r);
      GenerousFundings(nodes[..n], fs[..n], r);
      assert fs[n] in fs;
      GenerousFunding(nodes[n], fs[n], r);
      forall f | f in fs
        ensures Paid(f)
      {
        assert f in fs[..n] || f == fs[n];
      }
    }
  }

  lemma GenerousRegistration(node: Node, g: Registration, r: nat)
    requires IsRegistration(g, r) && AllGenerous(RegistrationEvents(node, g), r)
    ensures Accepted(g)
  {
    var log := RegistrationEvents(node, g);
    assert log[2].reply == g.ask.balance;
    assert g.cmd.Some?;
    assert log[3].reply == g.cmd.value;
    assert log[3] in log && log[|log| - 1] in log;
  }

  lemma {:induction false} GenerousRegistrations(nodes: seq<Node>, gs: seq<Registration>, r: nat)
    requires |nodes| == |gs| && (forall g :: g in gs ==> IsRegistration(g, r))
    requires AllGenerous(RegistrationsEvents(nodes, gs), r)
    ensures forall g :: g in gs ==> Accepted(g)
  {
    if gs == [] {
    } else {
      var n := |gs| - 1;
      GenerousSplit(RegistrationsEvents(nodes[..n], gs[..n]), RegistrationEvents(nodes[n], gs[n]), r);
      GenerousRegistrations(nodes[..n], gs[..n], r);
      assert gs[n] in gs;
      GenerousRegistration(nodes[n], gs[n], r);
      forall g | g in gs
        ensures Accepted(g)
      {
        assert g in gs[..n] || g == gs[n];
      }
    }
  }

  /** If every call is answered with enough, all n nodes are registered. */
  lemma GenerousRun(run: Run, n: nat, r: nat)
    requires IsRun(run, n, r) && AllGenerous(RunLog(run, r), r)
    ensures |Registered(run)| == n
  {
    GenerousSplit(FundingLog(run, r), RegistrationsEvents(Funded(run), run.registrations), r);
    var a, b := CreationsEvents(run.creations), FundingsEvents(Created(run), run.fundings, r);
    GenerousSplit(a + run.opening + b, RoundsEvents(run.rounds), r);
    GenerousSplit(a + run.opening, b, r);
    GenerousSplit(a, run.opening, r);
    GenerousCreations(run.creations, r);
    GenerousFundings(Created(run), run.fundings, r);
    KeptAll(Created(run), run.fundings, Paid);
    GenerousRegistrations(Funded(run), run.registrations, r);
    KeptAll(Funded(run), run.registrations, Accepted);
  }

  lemma GenerousReplies(oracle: (Log, Request) -> Reply, before: Log, log: Log, r: nat)
    requires Answers(oracle, before + log)
    requires forall l, q :: Generous(oracle(l, q), r)
    ensures AllGenerous(log, r)
  {
    forall e | e in log
      ensures Generous(e.reply, r)
    {
      var t :| 0 <= t < |log| && log[t] == e;
      assert (before + log)[|before| + t] == e;
    }
  }

  /** An oracle that always answers with enough has all n nodes registered, whatever was said
      before the run. */
  lemma GenerousOracle(oracle: (Log, Request) -> Reply, before: Log, run: Run, n: nat, r: nat)
    requires IsRun(run, n, r) && Answers(oracle, before + RunLog(run, r))
    requires forall log, q :: Generous(oracle(log, q), r)
    ensures |Registered(run)| == n
  {
    GenerousReplies(oracle, before, RunLog(run, r), r);
    GenerousRun(run, n, r);
  }

  // ----- whose address it is

  lemma {:induction false} CreationsSize(cs: seq<Creation>)
    ensures |CreationsEvents(cs)| == 2 * |cs|
  {
    if cs == [] {
    } else {
      CreationsSize(cs[..|cs| - 1]);
    }
  }

  lemma {:induction false} CreationsAt(cs: seq<Creation>, k: nat)
    requires k < |cs|
    ensures var log := CreationsEvents(cs);
            && |log| == 2 * |cs| && log[..2 * k] == CreationsEvents(cs[..k])
            && log[2 * k] == Event(CreateWallet(Sn(k + 1)), cs[k].onCreate)
            && log[2 * k + 1] == Event(GetAddress, cs[k].onAddress)
  {
    var n := |cs| - 1;
    CreationsSize(cs[..n]);
    if k < n {
      CreationsAt(cs[..n], k);
      assert cs[..n][..k] == cs[..k];
    }
  }

  lemma {:induction false} CreationsInUse(cs: seq<Creation>)
    ensures InUse(CreationsEvents(cs)).Some? ==>
              InUse(CreationsEvents(cs)).value.Sn? && InUse(CreationsEvents(cs)).value.id <= |cs|
  {
    if cs == [] {
    } else {
      var n := |cs| - 1;
      var before, step := CreationsEvents(cs[..n]), CreationEvents(n + 1, cs[n]);
      CreationsInUse(cs[..n]);
      InUseStep(before + step, |before|);
      InUseStep(before + step, |before| + 1);
      assert (before + step)[..|before|] == before && (before + step)[..|before| + 2] == before + step;
    }
  }

  /** The address answered for a node is asked of the node's own wallet if and only if the
      creation of that wallet was answered. */
  lemma OwnAddress(cs: seq<Creation>, k: nat)
    requires k < |cs|
    ensures |CreationsEvents(cs)| == 2 * |cs|
    ensures ActsAsMeant(CreationsEvents(cs), 2 * k + 1) <==> cs[k].onCreate.Result?
  {
    var log := CreationsEvents(cs);
    CreationsAt(cs, k);
    CreationsInUse(cs[..k]);
    InUseStep(log, 2 * k);
  }

  // ----- a run that pays from the wrong wallet

  /** A run for one node, whose creation is answered and in which no opening is. */
  function WrongRun(r: nat): Run {
    var answer := Result("address", r + FEE);
    Run([Creation(answer, answer)], [Event(OpenWallet(Genesis), NoResult), Event(Refresh, NoResult)],
        [Funding([Ask(NoResult, NoResult, answer)], Some(NoResult))], [], [])
  }

  lemma OneCreation(c: Creation)
    requires Address(c) != ""
    ensures CreationsEvents([c]) == CreationEvents(1, c) && CreatedBy([c]) == [Node(1, Address(c))]
  {
    assert [c][..0] == [];
  }

  lemma AsksOne(wallet: Wallet, ask: Ask)
    ensures AsksEvents(wallet, [ask]) == AskEvents(wallet, ask)
  {
    assert [ask][..0] == [];
  }

  lemma OneFunding(node: Node, ask: Ask, r: nat)
    ensures var f := Funding([ask], Some(NoResult));
            && Kept([node], [f], Paid) == []
            && FundingsEvents([node], [f], r)
            == AskEvents(Genesis, ask) + [Event(Transfer(r + FEE, node.address), NoResult)]
  {
    var f := Funding([ask], Some(NoResult));
    assert [node][..0] == [] && [f][..0] == [];
    AsksOne(Genesis, ask);
  }

  lemma WrongRunLists(r: nat)
    ensures Created(WrongRun(r)) == [Node(1, "address")] && Shaped(WrongRun(r)) && Funded(WrongRun(r)) == []
  {
    var run := WrongRun(r);
    OneCreation(run.creations[0]);
    OneFunding(Node(1, "address"), run.fundings[0].asks[0], r);
  }

  lemma WrongRunLog(r: nat)
    requires Shaped(WrongRun(r))
    ensures var run := WrongRun(r);
            RunLog(run, r) == CreationEvents(1, run.creations[0]) + run.opening
                              + (AskEvents(Genesis, run.fundings[0].asks[0])
                                 + [Event(Transfer(r + FEE, "address"), NoResult)])
  {
    var run := WrongRun(r);
    WrongRunLists(r);
    OneCreation(run.creations[0]);
    OneFunding(Node(1, "address"), run.fundings[0].asks[0], r);
  }

  lemma WrongWalletLog(log: Log, r: nat)
    requires |log| == 8 && log[0].request == CreateWallet(Sn(1)) && log[0].reply.Result?
    requires forall t :: 0 < t < 7 ==> !(Opens(log[t].request) && log[t].reply.Result?)
    requires log[4].request == OpenWallet(Genesis) && log[7].request.Transfer?
    ensures InUse(log[..7]) == Some(Sn(1)) && !ActsAsMeant(log, 7)
  {
    InUseStep(log, 0);
    InUseStep(log, 1);
    InUseStep(log, 2);
    InUseStep(log, 3);
    InUseStep(log, 4);
    InUseStep(log, 5);
    InUseStep(log, 6);
  }

  /** In a run for one node in which no opening is answered, the transfer is made while the
      node's own wallet is in use, not the genesis wallet. */
  lemma WrongWallet(r: nat)
    ensures IsRun(WrongRun(r), 1, r)
    ensures var log := RunLog(WrongRun(r), r);
            |log| == 8 && log[7].request.Transfer? && InUse(log[..7]) == Some(Sn(1)) && !ActsAsMeant(log, 7)
  {
    WrongRunLists(r);
    WrongRunLog(r);
    WrongWalletLog(RunLog(WrongRun(r), r), r);
  }

  // ----- logs that grow

  lemma AsksSnoc(wallet: Wallet, asks: seq<Ask>, ask: Ask)
    ensures AsksEvents(wallet, asks + [ask]) == AsksEvents(wallet, asks) + AskEvents(wallet, ask)
  {
    assert (asks + [ask])[..|asks|] == asks;
  }

  lemma {:induction false} AsksJoin(wallet: Wallet, asks: seq<Ask>, more: seq<Ask>)
    ensures AsksEvents(wallet, asks + more) == AsksEvents(wallet, asks) + AsksEvents(wallet, more)
  {
    if more == [] {
      assert asks + more == asks;
    } else {
      var n := |more| - 1;
      var init, ask := more[..n], more[n];
      assert more == init + [ask] && asks + more == asks + init + [ask];
      AsksJoin(wallet, asks, init);
      AsksSnoc(wallet, asks + init, ask);
      AsksSnoc(wallet, init, ask);
      LogAssoc(AsksEvents(wallet, asks), AsksEvents(wallet, init), AskEvents(wallet, ask));
    }
  }

  lemma FundingsSnoc(log: Log, nodes: seq<Node>, k: nat, fs: seq<Funding>, f: Funding, r: nat)
    requires k < |nodes| && |fs| == k
    ensures log + FundingsEvents(nodes[..k], fs, r) + FundingEvents(nodes[k], f, r)
         == log + FundingsEvents(nodes[..k + 1], fs + [f], r)
  {
    assert nodes[..k + 1][..k] == nodes[..k] && (fs + [f])[..k] == fs;
    LogAssoc(log, FundingsEvents(nodes[..k], fs, r), FundingEvents(nodes[k], f, r));
  }

  lemma RegistrationsSnoc(log: Log, nodes: seq<Node>, k: nat, gs: seq<Registration>, g: Registration)
    requires k < |nodes| && |gs| == k
    ensures log + RegistrationsEvents(nodes[..k], gs) + RegistrationEvents(nodes[k], g)
         == log + RegistrationsEvents(nodes[..k + 1], gs + [g])
  {
    assert nodes[..k + 1][..k] == nodes[..k] && (gs + [g])[..k] == gs;
    LogAssoc(log, RegistrationsEvents(nodes[..k], gs), RegistrationEvents(nodes[k], g));
  }

  lemma PendingStep(ids: seq<nat>, k: nat, pending: set<nat>)
    requires k < |ids|
    ensures PendingOf(ids[..k + 1], pending)
         == PendingOf(ids[..k], pending) + if ids[k] in pending then [ids[k]] else []
  {
    assert ids[..k + 1][..k] == ids[..k];
  }

  lemma PollsSnoc(polls: seq<Poll>, p: Poll, r: nat)
    ensures PollsEvents(polls + [p]) == PollsEvents(polls) + PollEvents(p)
    ensures PolledIds(polls + [p]) == PolledIds(polls) + [p.id]
    ensures StillShort(polls + [p], r) == StillShort(polls, r) + if Short(p.ask.balance, r) then {p.id} else {}
  {
    assert (polls + [p])[..|polls|] == polls;
    forall q
      ensures q in polls + [p] <==> q in polls || q == p
    {
    }
  }

  lemma WaitStart(funded: seq<Node>, r: nat)
    ensures Waited([], Ids(funded), r)
    ensures NextPending([], Ids(funded), r) == set n | n in funded :: n.id
  {
    IdsMembers(funded);
  }

  lemma WaitedSnoc(rounds: seq<Round>, ids: seq<nat>, r: nat, round: Round)
    requires Waited(rounds, ids, r)
    requires PolledIds(round.polls) == PendingOf(ids, round.pending)
    requires round.pending == NextPending(rounds, ids, r)
    requires rounds != [] ==> round.pending != {}
    ensures Waited(rounds + [round], ids, r)
    ensures NextPending(rounds + [round], ids, r) == StillShort(round.polls, r)
    ensures RoundsEvents(rounds + [round]) == RoundsEvents(rounds) + PollsEvents(round.polls)
  {
    var all := rounds + [round];
    assert all[..|rounds|] == rounds;
    forall k | 0 <= k < |all| - 1
      ensures all[k + 1].pending == LeftBy(all, k, r) != {}
    {
      assert LeftBy(all, k, r) == LeftBy(rounds, k, r);
    }
  }

  lemma RegroupLogs(log: Log, a: Log, b: Log, c: Log, d: Log, e: Log)
    ensures log + a + b + c + d + e == log + (a + b + c + d + e)
  {
  }

  lemma RunLogParts(log: Log, run: Run, r: nat)
    requires Shaped(run)
    ensures log + CreationsEvents(run.creations) + run.opening + FundingsEvents(Created(run), run.fundings, r)
              + RoundsEvents(run.rounds) + RegistrationsEvents(Funded(run), run.registrations)
         == log + RunLog(run, r)
  {
    RegroupLogs(log, CreationsEvents(run.creations), run.opening, FundingsEvents(Created(run), run.fundings, r),
                RoundsEvents(run.rounds), RegistrationsEvents(Funded(run), run.registrations));
  }
}
