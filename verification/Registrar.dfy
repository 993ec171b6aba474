/** The registration of service nodes with parallel funding: create all wallets, fund them
    from the genesis wallet, wait for the funds to unlock, register the nodes. Every method
    is proved to make the calls that RegistrationRun describes; what follows from them, for
    every choice of replies, is proved there. */
module Registrar {
  import opened Options
  import opened RpcLog
  import opened UnlockWait
  import opened RegistrationRun

  /** The daemons' side of the conversation is arbitrary: the oracle may choose each reply
      by all that was said before. */
  class RpcClient {
    const oracle: (Log, Request) -> Reply
    var log: Log

    ghost predicate Valid()
      reads this
    {
      Answers(oracle, log)
    }

    constructor (oracle: (Log, Request) -> Reply)
      ensures this.oracle == oracle && log == [] && Valid()
    {
      this.oracle := oracle;
      log := [];
    }

    method Call(q: Request) returns (reply: Reply)
      requires Valid()
      modifies this
      ensures Valid() && log == old(log) + [Event(q, reply)]
    {
      reply := oracle(log, q);
      log := log + [Event(q, reply)];
      assert forall t :: 0 <= t < |old(log)| ==> log[..t] == old(log)[..t];
      assert log[..|old(log)|] == old(log);
    }
  }

  class ServiceNodeRegistrar {
    const rpc: RpcClient
    const requirement: nat

    constructor (rpc: RpcClient, requirement: nat)
      ensures this.rpc == rpc && this.requirement == requirement
    {
      this.rpc := rpc;
      this.requirement := requirement;
    }

    /** Opens a wallet, refreshes it and asks for its balance. The replies to the first two
        calls are not looked at. */
    method AskBalance(wallet: Wallet) returns (balance: Reply, ghost ask: Ask)
      requires rpc.Valid()
      modifies rpc
      ensures rpc.Valid() && rpc.log == old(rpc.log) + AskEvents(wallet, ask)
      ensures ask.balance == balance
    {
      var onOpen := rpc.Call(OpenWallet(wallet));
      var onRefresh := rpc.Call(Refresh);
      balance := rpc.Call(GetBalance);
      ask := Ask(onOpen, onRefresh, balance);
    }

    /** Creates a node's wallet; the address is empty if none was answered. */
    method CreateSnWallet(id: nat) returns (address: string, ghost c: Creation)
      requires rpc.Valid()
      modifies rpc
      ensures rpc.Valid() && rpc.log == old(rpc.log) + CreationEvents(id, c)
      ensures address == Address(c)
    {
      var onCreate := rpc.Call(CreateWallet(Sn(id)));
      var res := rpc.Call(GetAddress);
      address := if res.Result? then res.text else "";
      c := Creation(onCreate, res);
    }

    /** Phase 1: every wallet from 1 to n is created. */
    method CreateWallets(n: nat) returns (created: seq<Node>, ghost cs: seq<Creation>)
      requires rpc.Valid()
      modifies rpc
      ensures rpc.Valid() && rpc.log == old(rpc.log) + CreationsEvents(cs)
      ensures |cs| == n && created == CreatedBy(cs)
    {
      created, cs := [], [];
      for i := 0 to n
        invariant rpc.Valid() && rpc.log == old(rpc.log) + CreationsEvents(cs)
        invariant |cs| == i && created == CreatedBy(cs)
      {
        var address;
        ghost var c;
        address, c := CreateSnWallet(i + 1);
        assert (cs + [c])[..i] == cs;
        LogAssoc(old(rpc.log), CreationsEvents(cs), CreationEvents(i + 1, c));
        cs := cs + [c];
        if address != "" {
          created := created + [Node(i + 1, address)];
        }
      }
    }

    /** Waits until the genesis wallet shows the amount, 120 times at most. */
    method WaitForUnlockGenesis(amount: nat) returns (ok: bool, ghost asks: seq<Ask>)
      requires rpc.Valid()
      modifies rpc
      ensures rpc.Valid() && rpc.log == old(rpc.log) + AsksEvents(Genesis, asks)
      ensures 1 <= |asks| <= MAX_RETRIES
      ensures forall k :: 0 <= k < |asks| - 1 ==> !Shows(asks[k].balance, amount)
      ensures ok <==> Shows(asks[|asks| - 1].balance, amount)
      ensures !ok ==> |asks| == MAX_RETRIES
    {
      asks := [];
      for i := 0 to MAX_RETRIES
        invariant rpc.Valid() && rpc.log == old(rpc.log) + AsksEvents(Genesis, asks)
        invariant |asks| == i && forall k :: 0 <= k < i ==> !Shows(asks[k].balance, amount)
      {
        var res;
        ghost var ask;
        res, ask := AskBalance(Genesis);
        AsksSnoc(Genesis, asks, ask);
        LogAssoc(old(rpc.log), AsksEvents(Genesis, asks), AskEvents(Genesis, ask));
        asks := asks + [ask];
        if res.Result? && res.unlocked >= amount {
          return true, asks;
        }
      }
      ok := false;
    }

    /** Looks at the genesis wallet's balance and, if that does not do, waits for it. */
    method EnsureGenesisFunds(amount: nat) returns (enough: bool, ghost asks: seq<Ask>)
      requires rpc.Valid() && amount > 0
      modifies rpc
      ensures rpc.Valid() && rpc.log == old(rpc.log) + AsksEvents(Genesis, asks)
      ensures 1 <= |asks| <= MAX_RETRIES + 1
      ensures forall k :: 0 <= k < |asks| - 1 ==> !Shows(asks[k].balance, amount)
      ensures enough <==> Shows(asks[|asks| - 1].balance, amount)
      ensures !enough ==> |asks| == MAX_RETRIES + 1
    {
      var balance;
      ghost var ask, more;
      balance, ask := AskBalance(Genesis);
      AsksOne(Genesis, ask);
      var unlocked := if balance.Result? then balance.unlocked else 0;
      if unlocked >= amount {
        return true, [ask];
      }
      enough, more := WaitForUnlockGenesis(amount);
      AsksJoin(Genesis, [ask], more);
      LogAssoc(old(rpc.log), AsksEvents(Genesis, [ask]), AsksEvents(Genesis, more));
      asks := [ask] + more;
    }

    /** Sends requirement and fee to the node, once the genesis wallet shows that much. */
    method FundWalletNoWait(node: Node) returns (ok: bool, ghost f: Funding)
      requires rpc.Valid()
      modifies rpc
      ensures rpc.Valid() && rpc.log == old(rpc.log) + FundingEvents(node, f, requirement)
      ensures IsFunding(f, requirement) && (ok <==> Paid(f))
    {
      var enough;
      ghost var asks;
      enough, asks := EnsureGenesisFunds(requirement + FEE);
      if !enough {
        assert AsksEvents(Genesis, asks) + [] == AsksEvents(Genesis, asks);
        return false, Funding(asks, None);
      }
      var q := Transfer(requirement + FEE, node.address);
      var res := rpc.Call(q);
      LogAssoc(old(rpc.log), AsksEvents(Genesis, asks), [Event(q, res)]);
      f := Funding(asks, Some(res));
      ok := res.Result?;
    }

    /** Phase 2: every created node gets one attempt. */
    method FundWallets(created: seq<Node>) returns (funded: seq<Node>, ghost fs: seq<Funding>)
      requires rpc.Valid()
      modifies rpc
      ensures rpc.Valid() && |fs| == |created| && rpc.log == old(rpc.log) + FundingsEvents(created, fs, requirement)
      ensures forall f :: f in fs ==> IsFunding(f, requirement)
      ensures funded == Kept(created, fs, Paid)
    {
      funded, fs := [], [];
      for k := 0 to |created|
        invariant rpc.Valid() && |fs| == k
        invariant rpc.log == old(rpc.log) + FundingsEvents(created[..k], fs, requirement)
        invariant forall f :: f in fs ==> IsFunding(f, requirement)
        invariant funded == Kept(created[..k], fs, Paid)
      {
        var ok;
        ghost var f;
        ok, f := FundWalletNoWait(created[k]);
        FundingsSnoc(old(rpc.log), created, k, fs, f, requirement);
        KeptSnoc(created, k, fs, f, Paid);
        fs := fs + [f];
        if ok {
          funded := funded + [created[k]];
        }
      }
      assert created[..|created|] == created;
    }

    /** One round of the wait. */
    method PollPending(funded: seq<Node>, pending: set<nat>) returns (stillPending: set<nat>, ghost polls: seq<Poll>)
      requires rpc.Valid()
      modifies rpc
      ensures rpc.Valid() && rpc.log == old(rpc.log) + PollsEvents(polls)
      ensures PolledIds(polls) == PendingOf(Ids(funded), pending)
      ensures stillPending == StillShort(polls, requirement)
    {
      stillPending := {};
      polls := [];
      for k := 0 to |funded|
        invariant rpc.Valid() && rpc.log == old(rpc.log) + PollsEvents(polls)
        invariant PolledIds(polls) == PendingOf(Ids(funded)[..k], pending)
        invariant stillPending == StillShort(polls, requirement)
      {
        var id := funded[k].id;
        PendingStep(Ids(funded), k, pending);
        if id !in pending {
          continue;
        }
        var res;
        ghost var ask;
        res, ask := AskBalance(Sn(id));
        ghost var poll := Poll(id, ask);
        PollsSnoc(polls, poll, requirement);
        LogAssoc(old(rpc.log), PollsEvents(polls), PollEvents(poll));
        polls := polls + [poll];
        if res.Result? {
          if !(res.unlocked >= requirement) {
            stillPending := stillPending + {id};
          }
        }
      }
      assert Ids(funded)[..|funded|] == Ids(funded);
    }

    /** Phase 3: waits for the wallets of all funded nodes to unlock. The answer is true exactly
        when a round left nothing pending; otherwise all 120 rounds were made. */
    method WaitForAllUnlocks(funded: seq<Node>) returns (done: bool, ghost rounds: seq<Round>)
      requires rpc.Valid()
      modifies rpc
      ensures rpc.Valid() && rpc.log == old(rpc.log) + RoundsEvents(rounds)
      ensures IsWait(rounds, Ids(funded), requirement)
      ensures done <==> LeftBy(rounds, |rounds| - 1, requirement) == {}
    {
      var pending := set n | n in funded :: n.id;
      rounds := [];
      WaitStart(funded, requirement);
      for attempt := 0 to MAX_RETRIES
        invariant rpc.Valid() && |rounds| == attempt
        invariant rpc.log == old(rpc.log) + RoundsEvents(rounds)
        invariant Waited(rounds, Ids(funded), requirement)
        invariant pending == NextPending(rounds, Ids(funded), requirement)
        invariant attempt > 0 ==> pending != {}
      {
        var stillPending;
        ghost var polls;
        stillPending, polls := PollPending(funded, pending);
        ghost var round := Round(pending, polls);
        WaitedSnoc(rounds, Ids(funded), requirement, round);
        LogAssoc(old(rpc.log), RoundsEvents(rounds), PollsEvents(polls));
        rounds := rounds + [round];
        pending := stillPending;
        if pending == {} {
          return true, rounds;
        }
      }
      done := |pending| == 0;
    }

    /** Registers a funded node. */
    method RegisterFundedNode(node: Node) returns (ok: bool, ghost g: Registration)
      requires rpc.Valid()
      modifies rpc
      ensures rpc.Valid() && rpc.log == old(rpc.log) + RegistrationEvents(node, g)
      ensures IsRegistration(g, requirement) && (ok <==> Accepted(g))
    {
      var res;
      ghost var ask;
      res, ask := AskBalance(Sn(node.id));
      if res.Result? {
        if res.unlocked < requirement {
          return false, Registration(ask, None, None);
        }
      }
      var cmd := rpc.Call(GetRegistrationCmd(SN_RPC_BASE_PORT + node.id, node.address));
      if cmd.NoResult? || cmd.text == "" {
        return false, Registration(ask, Some(cmd), None);
      }
      var reply := rpc.Call(Register(cmd.text));
      g := Registration(ask, Some(cmd), Some(reply));
      ok := reply.Result?;
    }

    /** Phase 4: every funded node gets one attempt. */
    method RegisterNodes(funded: seq<Node>) returns (count: nat, ghost gs: seq<Registration>)
      requires rpc.Valid()
      modifies rpc
      ensures rpc.Valid() && |gs| == |funded| && rpc.log == old(rpc.log) + RegistrationsEvents(funded, gs)
      ensures forall g :: g in gs ==> IsRegistration(g, requirement)
      ensures count == |Kept(funded, gs, Accepted)|
    {
      count, gs := 0, [];
      for k := 0 to |funded|
        invariant rpc.Valid() && |gs| == k
        invariant rpc.log == old(rpc.log) + RegistrationsEvents(funded[..k], gs)
        invariant forall g :: g in gs ==> IsRegistration(g, requirement)
        invariant count == |Kept(funded[..k], gs, Accepted)|
      {
        var ok;
        ghost var g;
        ok, g := RegisterFundedNode(funded[k]);
        RegistrationsSnoc(old(rpc.log), funded, k, gs, g);
        KeptSnoc(funded, k, gs, g, Accepted);
        gs := gs + [g];
        if ok {
          count := count + 1;
        }
      }
      assert funded[..|funded|] == funded;
    }

    method OpenGenesis() returns (ghost opening: Log)
      requires rpc.Valid()
      modifies rpc
      ensures rpc.Valid() && rpc.log == old(rpc.log) + opening && IsOpening(opening)
    {
      var onOpen := rpc.Call(OpenWallet(Genesis));
      var onRefresh := rpc.Call(Refresh);
      opening := [Event(OpenWallet(Genesis), onOpen), Event(Refresh, onRefresh)];
    }

    /** The whole registration: a run, under any oracle, whose accepted registrations are
        counted. */
    method RegisterAllNodesParallel(n: nat) returns (count: nat, ghost run: Run)
      requires rpc.Valid()
      modifies rpc
      ensures rpc.Valid() && IsRun(run, n, requirement)
      ensures rpc.log == old(rpc.log) + RunLog(run, requirement)
      ensures count == |Registered(run)|
    {
      var created, funded, unlocked;
      ghost var cs, opening, fs, rounds, gs;
      count, opening, fs, rounds, gs := 0, [], [], [], [];
      created, cs := CreateWallets(n);
      if |created| == 0 {
        run := Run(cs, [], [], [], []);
        RunLogParts(old(rpc.log), run, requirement);
        return;
      }
      opening := OpenGenesis();
      funded, fs := FundWallets(created);
      if |funded| == 0 {
        run := Run(cs, opening, fs, [], []);
        RunLogParts(old(rpc.log), run, requirement);
        return;
      }
      unlocked, rounds := WaitForAllUnlocks(funded);
      count, gs := RegisterNodes(funded);
      run := Run(cs, opening, fs, rounds, gs);
      RunLogParts(old(rpc.log), run, requirement);
    }
  }
}
