/** The conversation between the registrar and the daemons: a log of requests and replies,
    and what such a log amounts to. */
module RpcLog {
  import opened Options

  /** What the transfer to a node holds on top of the staking requirement, for fees. */
  const FEE: nat := 1_000_000_000

  const SN_RPC_BASE_PORT: nat := 18200

  datatype Wallet = Genesis | Sn(id: nat)

  datatype Request =
    | CreateWallet(wallet: Wallet)
    | GetAddress
    | OpenWallet(wallet: Wallet)
    | Refresh
    | GetBalance
    | Transfer(amount: nat, address: string)
    | GetRegistrationCmd(port: nat, address: string)
    | Register(cmd: string)

  /** A reply without a result, or the parts of a result that are ever looked at: an address
      or command, and an unlocked balance. */
  datatype Reply = NoResult | Result(text: string, unlocked: nat)

  datatype Event = Event(request: Request, reply: Reply)

  type Log = seq<Event>

  /** Every reply in the log is the oracle's. */
  ghost predicate Answers(oracle: (Log, Request) -> Reply, log: Log) {
    forall t :: 0 <= t < |log| ==> log[t].reply == oracle(log[..t], log[t].request)
  }

  datatype Node = Node(id: nat, address: string)

  /** The replies to opening a wallet, refreshing it and asking for its balance. */
  datatype Ask = Ask(onOpen: Reply, onRefresh: Reply, balance: Reply)

  predicate QuietRequest(q: Request) {
    q.CreateWallet? || q.OpenWallet? || q.Refresh? || q.GetBalance? || q.GetRegistrationCmd?
  }

  predicate Quiet(log: Log) {
    forall t :: 0 <= t < |log| ==> QuietRequest(log[t].request)
  }

  /** The three calls before place t ask for the wallet to be opened and refreshed and for the
      balance. Whether the wallet really was opened is for the reply to say: see InUse. */
  predicate Asked(log: Log, t: int, wallet: Wallet) {
    && 3 <= t <= |log|
    && log[t - 3].request == OpenWallet(wallet)
    && log[t - 2].request == Refresh
    && log[t - 1].request == GetBalance
  }

  function AskEvents(wallet: Wallet, a: Ask): (log: Log)
    ensures Asked(log, 3, wallet) && |log| == 3 && Quiet(log)
  {
    [Event(OpenWallet(wallet), a.onOpen), Event(Refresh, a.onRefresh), Event(GetBalance, a.balance)]
  }

  // ----- safety of a log

  /** The reply shows at least the given unlocked balance. */
  predicate Shows(reply: Reply, amount: nat) {
    reply.Result? && reply.unlocked >= amount
  }

  /** The reply shows less than the given unlocked balance. */
  predicate Short(reply: Reply, amount: nat) {
    reply.Result? && reply.unlocked < amount
  }

  /** A transfer is only made straight after a request to open the genesis wallet and a balance
      that holds the amount. */
  predicate TransferAllowed(log: Log, t: int, r: nat) {
    && 0 <= t < |log|
    && log[t].request.Transfer?
    && log[t].request.amount == r + FEE
    && Asked(log, t, Genesis)
    && Shows(log[t - 1].reply, r + FEE)
  }

  /** A registration is only submitted straight after a request to open the node's own wallet
      and a balance that is not short, with the command that the node's own daemon has just
      given. */
  predicate RegistrationAllowed(log: Log, t: int, r: nat) {
    && 4 <= t < |log|
    && log[t].request.Register?
    && log[t - 4].request.OpenWallet? && log[t - 4].request.wallet.Sn?
    && Asked(log, t - 1, log[t - 4].request.wallet)
    && !Short(log[t - 2].reply, r)
    && log[t - 1].request.GetRegistrationCmd?
    && log[t - 1].request.port == SN_RPC_BASE_PORT + log[t - 4].request.wallet.id
    && log[t - 1].reply.Result?
    && log[t - 1].reply.text == log[t].request.cmd != ""
  }

  /** An address is only asked for straight after a request to create a node's wallet. */
  predicate AddressAllowed(log: Log, t: int) {
    && 1 <= t < |log|
    && log[t - 1].request.CreateWallet? && log[t - 1].request.wallet.Sn?
  }

  ghost predicate SafeAt(log: Log, t: int, r: nat)
    requires 0 <= t < |log|
  {
    match log[t].request
    case Transfer(_, _) => TransferAllowed(log, t, r)
    case Register(_) => RegistrationAllowed(log, t, r)
    case GetAddress => AddressAllowed(log, t)
    case _ => true
  }

  ghost predicate Safe(log: Log, r: nat) {
    forall t :: 0 <= t < |log| ==> SafeAt(log, t, r)
  }

  lemma SafeAppend(a: Log, b: Log, r: nat)
    requires Safe(a, r) && Safe(b, r)
    ensures Safe(a + b, r)
  {
    var c := a + b;
    forall t | 0 <= t < |c|
      ensures SafeAt(c, t, r)
    {
      if t < |a| {
        assert SafeAt(a, t, r);
      } else {
        assert SafeAt(b, t - |a|, r);
      }
    }
  }

  lemma LogAssoc(a: Log, b: Log, c: Log)
    ensures a + b + c == a + (b + c)
  {
  }

  // ----- the wallet in use

  predicate Opens(q: Request) {
    q.OpenWallet? || q.CreateWallet?
  }

  /** The wallet that is open after the log: the last one whose opening or creation was
      answered with a result. */
  function InUse(log: Log): Option<Wallet> {
    if log == [] then None
    else
      var e := log[|log| - 1];
      if Opens(e.request) && e.reply.Result? then Some(e.request.wallet)
      else InUse(log[..|log| - 1])
  }

  lemma InUseStep(log: Log, t: nat)
    requires t < |log|
    ensures InUse(log[..t + 1])
         == if Opens(log[t].request) && log[t].reply.Result?
            then Some(log[t].request.wallet) else InUse(log[..t])
  {
    assert log[..t + 1][..t] == log[..t];
  }

  /** The requests that act on the wallet in use. */
  predicate ActsOnWallet(q: Request) {
    q.Transfer? || q.Register? || q.GetAddress?
  }

  /** The place of the request that was to bring the right wallet into use for the request at
      place t of a safe log. */
  function OpenedAt(log: Log, t: int): int
    requires 0 <= t < |log|
  {
    match log[t].request
    case Transfer(_, _) => t - 3
    case Register(_) => t - 4
    case _ => t - 1
  }

  /** The request at place t acts on the wallet it is meant for. */
  predicate ActsAsMeant(log: Log, t: int)
    requires 0 <= t < |log|
  {
    var o := OpenedAt(log, t);
    0 <= o < t && Opens(log[o].request) && InUse(log[..t]) == Some(log[o].request.wallet)
  }

  /** A transfer, a registration or an address request acts on the wallet it is meant for if and
      only if that wallet's opening or creation was answered, or it was in use already. */
  lemma WalletInUse(log: Log, t: int, r: nat)
    requires Safe(log, r) && 0 <= t < |log| && ActsOnWallet(log[t].request)
    ensures var o := OpenedAt(log, t);
            && 0 <= o < t && Opens(log[o].request)
            && (log[t].request.Transfer? ==> log[o].request.wallet == Genesis)
            && (ActsAsMeant(log, t)
                <==> log[o].reply.Result? || InUse(log[..o]) == Some(log[o].request.wallet))
  {
    assert SafeAt(log, t, r);
    var o := OpenedAt(log, t);
    InUseStep(log, o);
    if log[t].request.Transfer? {
      InUseStep(log, t - 2);
      InUseStep(log, t - 1);
    } else if log[t].request.Register? {
      InUseStep(log, t - 3);
      InUseStep(log, t - 2);
      InUseStep(log, t - 1);
    }
  }

  ghost predicate AllOpened(log: Log) {
    forall t :: 0 <= t < |log| && Opens(log[t].request) ==> log[t].reply.Result?
  }

  /** If every opening and creation is answered, every call acts on the wallet it is meant
      for. */
  lemma RightWallets(log: Log, r: nat)
    requires Safe(log, r) && AllOpened(log)
    ensures forall t :: 0 <= t < |log| && ActsOnWallet(log[t].request) ==> ActsAsMeant(log, t)
  {
    forall t | 0 <= t < |log| && ActsOnWallet(log[t].request)
      ensures ActsAsMeant(log, t)
    {
      WalletInUse(log, t, r);
    }
  }

  // ----- the effects of a log

  /** What a log has brought about: wallets created with their addresses, transfers made,
      registrations submitted and registrations accepted, each in order. */
  datatype Effects = Effects(
    created: seq<Node>, sent: seq<(nat, string)>, submitted: seq<Node>, registered: seq<Node>)

  const NOTHING := Effects([], [], [], [])

  function Plus(e: Effects, f: Effects): Effects {
    Effects(e.created + f.created, e.sent + f.sent, e.submitted + f.submitted, e.registered + f.registered)
  }

  /** A node's wallet and its registration command were asked for before place t. */
  predicate Prepared(log: Log, t: int) {
    && 4 <= t < |log|
    && log[t - 4].request.OpenWallet? && log[t - 4].request.wallet.Sn?
    && log[t - 1].request.GetRegistrationCmd?
  }

  function EffectAt(log: Log, t: int): Effects
    requires 0 <= t < |log|
  {
    var reply := log[t].reply;
    match log[t].request
    case GetAddress =>
      if AddressAllowed(log, t) && reply.Result? && reply.text != ""
      then NOTHING.(created := [Node(log[t - 1].request.wallet.id, reply.text)])
      else NOTHING
    case Transfer(amount, address) =>
      if reply.Result? then NOTHING.(sent := [(amount, address)]) else NOTHING
    case Register(_) =>
      if Prepared(log, t)
      then var node := Node(log[t - 4].request.wallet.id, log[t - 1].request.address);
           Effects([], [], [node], if reply.Result? then [node] else [])
      else NOTHING
    case _ => NOTHING
  }

  function EffectsOf(log: Log): Effects {
    if log == [] then NOTHING
    else Plus(EffectsOf(log[..|log| - 1]), EffectAt(log, |log| - 1))
  }

  lemma PlusNothing(e: Effects)
    ensures Plus(e, NOTHING) == e && Plus(NOTHING, e) == e
  {
  }

  lemma PlusAssoc(e: Effects, f: Effects, g: Effects)
    ensures Plus(Plus(e, f), g) == Plus(e, Plus(f, g))
  {
  }

  /** An event of a safe log has the same effect wherever the log is placed. */
  lemma EffectAtAppend(a: Log, b: Log, t: int, r: nat)
    requires 0 <= t < |b| && SafeAt(b, t, r)
    ensures EffectAt(a + b, |a| + t) == EffectAt(b, t)
  {
    var c := a + b;
    assert c[|a| + t] == b[t];
    if t >= 1 {
      assert c[|a| + t - 1] == b[t - 1];
    }
    if t >= 4 {
      assert c[|a| + t - 4] == b[t - 4];
    }
  }

  lemma SafePrefix(b: Log, k: nat, r: nat)
    requires Safe(b, r) && k <= |b|
    ensures Safe(b[..k], r)
  {
    forall t | 0 <= t < k
      ensures SafeAt(b[..k], t, r)
    {
      assert SafeAt(b, t, r);
    }
  }

  lemma EffectsLast(log: Log, init: Log, x: Effects)
    requires log != [] && log[..|log| - 1] == init && EffectAt(log, |log| - 1) == x
    ensures EffectsOf(log) == Plus(EffectsOf(init), x)
  {
  }

  /** The last event of a safe log adds the same to the log as to what the log is appended to. */
  lemma LastEffect(a: Log, b: Log, r: nat) returns (x: Effects)
    requires Safe(b, r) && b != []
    ensures EffectsOf(a + b) == Plus(EffectsOf(a + b[..|b| - 1]), x)
    ensures EffectsOf(b) == Plus(EffectsOf(b[..|b| - 1]), x)
  {
    x := EffectAt(b, |b| - 1);
    EffectAtAppend(a, b, |b| - 1, r);
    assert (a + b)[..|a + b| - 1] == a + b[..|b| - 1];
    EffectsLast(a + b, a + b[..|b| - 1], x);
    EffectsLast(b, b[..|b| - 1], x);
  }

  lemma {:induction false} EffectsAppend(a: Log, b: Log, r: nat)
    requires Safe(b, r)
    ensures EffectsOf(a + b) == Plus(EffectsOf(a), EffectsOf(b))
  {
    if b == [] {
      assert a + b == a;
      PlusNothing(EffectsOf(a));
    } else {
      var init := b[..|b| - 1];
      SafePrefix(b, |b| - 1, r);
      EffectsAppend(a, init, r);
      var x := LastEffect(a, b, r);
      PlusAssoc(EffectsOf(a), EffectsOf(init), x);
    }
  }

  lemma AppendStep(a: Log, b: Log, e: Effects, f: Effects, r: nat)
    requires Safe(a, r) && Safe(b, r) && EffectsOf(a) == e && EffectsOf(b) == f
    ensures Safe(a + b, r) && EffectsOf(a + b) == Plus(e, f)
  {
    SafeAppend(a, b, r);
    EffectsAppend(a, b, r);
  }

  lemma {:induction false} QuietEffects(log: Log, r: nat)
    requires Quiet(log)
    ensures Safe(log, r) && EffectsOf(log) == NOTHING
  {
    if log == [] {
    } else {
      QuietEffects(log[..|log| - 1], r);
    }
  }

  // ----- cause and effect

  ghost predicate CreatedAt(log: Log, v: int, node: Node) {
    && 1 <= v < |log|
    && log[v - 1].request == CreateWallet(Sn(node.id))
    && log[v].request == GetAddress
    && log[v].reply.Result? && log[v].reply.text == node.address
  }

  ghost predicate FundedAt(log: Log, u: int, node: Node, r: nat) {
    && 0 <= u < |log|
    && log[u].request == Transfer(r + FEE, node.address)
    && log[u].reply.Result?
  }

  ghost predicate HasWallet(log: Log, node: Node) {
    exists v :: CreatedAt(log, v, node)
  }

  /** The creation of the node's wallet was asked for, its address was answered, and later a
      transfer to that address succeeded. */
  ghost predicate Backed(log: Log, node: Node, r: nat) {
    exists v, u :: v < u && CreatedAt(log, v, node) && FundedAt(log, u, node, r)
  }

  /** The node for which the registration at place t is submitted. */
  function Submitter(log: Log, t: int, r: nat): Node
    requires RegistrationAllowed(log, t, r)
  {
    Node(log[t - 4].request.wallet.id, log[t - 1].request.address)
  }

  /** Every registration was submitted for a node whose address had been answered, and then
      funded, earlier in the log. */
  ghost predicate Earned(log: Log, r: nat) {
    forall t :: RegistrationAllowed(log, t, r) ==> Backed(log[..t], Submitter(log, t, r), r)
  }

  lemma HasWalletAppend(a: Log, b: Log, node: Node)
    ensures HasWallet(a, node) ==> HasWallet(a + b, node)
    ensures HasWallet(b, node) ==> HasWallet(a + b, node)
  {
    if v :| CreatedAt(a, v, node) {
      assert CreatedAt(a + b, v, node);
    }
    if v :| CreatedAt(b, v, node) {
      assert CreatedAt(a + b, |a| + v, node);
    }
  }

  ghost predicate HasTransfer(log: Log, node: Node, r: nat) {
    exists u :: FundedAt(log, u, node, r)
  }

  lemma HasTransferAppend(a: Log, b: Log, node: Node, r: nat)
    ensures HasTransfer(a, node, r) ==> HasTransfer(a + b, node, r)
    ensures HasTransfer(b, node, r) ==> HasTransfer(a + b, node, r)
  {
    if u :| FundedAt(a, u, node, r) {
      assert FundedAt(a + b, u, node, r);
    }
    if u :| FundedAt(b, u, node, r) {
      assert FundedAt(a + b, |a| + u, node, r);
    }
  }

  lemma BackedAppend(a: Log, b: Log, node: Node, r: nat)
    requires Backed(a, node, r)
    ensures Backed(a + b, node, r)
  {
    var v, u :| v < u && CreatedAt(a, v, node) && FundedAt(a, u, node, r);
    assert CreatedAt(a + b, v, node) && FundedAt(a + b, u, node, r);
  }

  lemma BackedByTransfer(a: Log, b: Log, node: Node, r: nat)
    requires HasWallet(a, node) && HasTransfer(b, node, r)
    ensures Backed(a + b, node, r)
  {
    var v :| CreatedAt(a, v, node);
    var u :| FundedAt(b, u, node, r);
    assert CreatedAt(a + b, v, node) && FundedAt(a + b, |a| + u, node, r);
  }

  lemma {:induction false} SubmitterCounted(log: Log, t: int, r: nat)
    requires RegistrationAllowed(log, t, r)
    ensures Submitter(log, t, r) in EffectsOf(log).submitted
  {
    var last := |log| - 1;
    if t == last {
      assert EffectAt(log, last).submitted == [Submitter(log, t, r)];
    } else {
      assert RegistrationAllowed(log[..last], t, r);
      assert Submitter(log[..last], t, r) == Submitter(log, t, r);
      SubmitterCounted(log[..last], t, r);
    }
  }

  /** Appending a safe log whose registrations are all for backed nodes. */
  lemma EarnedAppend(a: Log, b: Log, r: nat)
    requires Earned(a, r) && Safe(b, r)
    requires forall node :: node in EffectsOf(b).submitted ==> Backed(a, node, r)
    ensures Earned(a + b, r)
  {
    var c := a + b;
    forall t | RegistrationAllowed(c, t, r)
      ensures Backed(c[..t], Submitter(c, t, r), r)
    {
      if t < |a| {
        assert RegistrationAllowed(a, t, r);
        assert c[..t] == a[..t];
      } else {
        var s := t - |a|;
        assert SafeAt(b, s, r);
        assert RegistrationAllowed(b, s, r);
        assert Submitter(c, t, r) == Submitter(b, s, r);
        assert c[..t] == a + b[..s];
        SubmitterCounted(b, s, r);
        BackedAppend(a, b[..s], Submitter(b, s, r), r);
      }
    }
  }
}
