/** The wait for the funded wallets to unlock: rounds of balance requests, each round to the
    wallets that the rounds before have left pending. */
module UnlockWait {
  import opened RpcLog

  const MAX_RETRIES: nat := 120

  /** One wallet polled. */
  datatype Poll = Poll(id: nat, ask: Ask)

  function PollEvents(p: Poll): (log: Log)
    ensures Quiet(log)
  {
    AskEvents(Sn(p.id), p.ask)
  }

  function PollsEvents(ps: seq<Poll>): (log: Log)
    ensures Quiet(log)
  {
    if ps == [] then [] else PollsEvents(ps[..|ps| - 1]) + PollEvents(ps[|ps| - 1])
  }

  function PolledIds(ps: seq<Poll>): (ids: seq<nat>)
    ensures |ids| == |ps|
  {
    seq(|ps|, i requires 0 <= i < |ps| => ps[i].id)
  }

  /** The members of ids that are pending, in order. */
  function PendingOf(ids: seq<nat>, pending: set<nat>): seq<nat> {
    if ids == [] then []
    else PendingOf(ids[..|ids| - 1], pending)
         + if ids[|ids| - 1] in pending then [ids[|ids| - 1]] else []
  }

  /** The wallets whose balance was shown to be short. */
  function StillShort(ps: seq<Poll>, r: nat): set<nat> {
    set p | p in ps && Short(p.ask.balance, r) :: p.id
  }

  /** The pending set a round starts from, and what it polls. */
  datatype Round = Round(pending: set<nat>, polls: seq<Poll>)

  function RoundsEvents(rounds: seq<Round>): (log: Log)
    ensures Quiet(log)
  {
    if rounds == [] then []
    else RoundsEvents(rounds[..|rounds| - 1]) + PollsEvents(rounds[|rounds| - 1].polls)
  }

  function LeftBy(rounds: seq<Round>, k: int, r: nat): set<nat>
    requires 0 <= k < |rounds|
  {
    StillShort(rounds[k].polls, r)
  }

  /** A wait for the given wallets as the registrar conducts it: the first round is for all
      wallets, every other one for those that were still short, and there is none after a
      round that left nothing pending. */
  ghost predicate Waited(rounds: seq<Round>, ids: seq<nat>, r: nat) {
    && (forall k :: 0 <= k < |rounds| ==> PolledIds(rounds[k].polls) == PendingOf(ids, rounds[k].pending))
    && (|rounds| > 0 ==> rounds[0].pending == set id | id in ids)
    && (forall k :: 0 <= k < |rounds| - 1 ==> rounds[k + 1].pending == LeftBy(rounds, k, r) != {})
  }

  /** The pending set for the round after the given ones. */
  ghost function NextPending(rounds: seq<Round>, ids: seq<nat>, r: nat): set<nat> {
    if rounds == [] then set id | id in ids else LeftBy(rounds, |rounds| - 1, r)
  }

  ghost predicate Distinct(ids: seq<nat>) {
    forall i, j :: 0 <= i < j < |ids| ==> ids[i] != ids[j]
  }

  // ----- facts about waits

  lemma {:induction false} PendingOfMembers(ids: seq<nat>, pending: set<nat>)
    ensures forall id :: id in PendingOf(ids, pending) <==> id in ids && id in pending
    ensures Distinct(ids) ==> Distinct(PendingOf(ids, pending))
  {
    if ids == [] {
    } else {
      var init, last := ids[..|ids| - 1], ids[|ids| - 1];
      PendingOfMembers(init, pending);
      assert ids == init + [last];
      assert Distinct(ids) ==> Distinct(init) && last !in init;
    }
  }

  lemma PolledId(ps: seq<Poll>, id: nat)
    ensures id in PolledIds(ps) <==> exists p :: p in ps && p.id == id
  {
    if id in PolledIds(ps) {
      var i :| 0 <= i < |ps| && PolledIds(ps)[i] == id;
      assert ps[i] in ps;
    }
    if p :| p in ps && p.id == id {
      var i :| 0 <= i < |ps| && ps[i] == p;
      assert PolledIds(ps)[i] == id;
    }
  }

  /** A round polls each pending wallet, and no other. */
  lemma RoundPolls(rounds: seq<Round>, ids: seq<nat>, r: nat, k: nat, id: nat)
    requires Waited(rounds, ids, r) && k < |rounds|
    ensures (exists p :: p in rounds[k].polls && p.id == id) <==> id in ids && id in rounds[k].pending
  {
    PendingOfMembers(ids, rounds[k].pending);
    PolledId(rounds[k].polls, id);
    assert PolledIds(rounds[k].polls) == PendingOf(ids, rounds[k].pending);
  }

  /** The pending set only shrinks. */
  lemma {:induction false} PendingShrinks(rounds: seq<Round>, ids: seq<nat>, r: nat, k: nat, l: nat)
    requires Waited(rounds, ids, r) && k <= l < |rounds|
    ensures LeftBy(rounds, l, r) <= rounds[l].pending <= rounds[k].pending
    decreases l
  {
    forall id | id in LeftBy(rounds, l, r)
      ensures id in rounds[l].pending
    {
      var p :| p in rounds[l].polls && Short(p.ask.balance, r) && p.id == id;
      RoundPolls(rounds, ids, r, l, id);
    }
    if k < l {
      PendingShrinks(rounds, ids, r, k, l - 1);
    }
  }

  /** A wallet that is no longer pending is never polled again. */
  lemma DroppedIsNotPolled(rounds: seq<Round>, ids: seq<nat>, r: nat, k: nat, l: nat, p: Poll)
    requires Waited(rounds, ids, r) && k <= l < |rounds| && p in rounds[l].polls
    ensures p.id in rounds[k].pending
  {
    RoundPolls(rounds, ids, r, l, p.id);
    PendingShrinks(rounds, ids, r, k, l);
  }

  /** In a round, a wallet is polled once. */
  lemma PolledOnce(rounds: seq<Round>, ids: seq<nat>, r: nat, k: nat, p: Poll, q: Poll)
    requires Waited(rounds, ids, r) && Distinct(ids) && k < |rounds|
    requires p in rounds[k].polls && q in rounds[k].polls && p.id == q.id
    ensures p == q
  {
    var ps := rounds[k].polls;
    PendingOfMembers(ids, rounds[k].pending);
    assert PolledIds(ps) == PendingOf(ids, rounds[k].pending);
    var i :| 0 <= i < |ps| && ps[i] == p;
    var j :| 0 <= j < |ps| && ps[j] == q;
    assert PolledIds(ps)[i] == PolledIds(ps)[j];
  }

  /** A wallet leaves the wait in round k exactly when its reply in that round either showed
      the required balance or had no result at all. */
  lemma DroppedWhen(rounds: seq<Round>, ids: seq<nat>, r: nat, k: nat, p: Poll)
    requires Waited(rounds, ids, r) && Distinct(ids) && k < |rounds| && p in rounds[k].polls
    ensures p.id !in LeftBy(rounds, k, r) <==> Shows(p.ask.balance, r) || p.ask.balance.NoResult?
  {
    if p.id in LeftBy(rounds, k, r) {
      var q :| q in rounds[k].polls && Short(q.ask.balance, r) && q.id == p.id;
      PolledOnce(rounds, ids, r, k, p, q);
    }
  }

  /** The wallet was opened and its balance shown to suffice. */
  ghost predicate SeenUnlocked(rounds: seq<Round>, r: nat, id: nat) {
    exists k, p :: 0 <= k < |rounds| && p in rounds[k].polls && p.id == id
                   && p.ask.onOpen.Result? && Shows(p.ask.balance, r)
  }

  /** p is the poll of round k after which its wallet was no longer waited for. */
  ghost predicate Leaves(rounds: seq<Round>, r: nat, k: int, p: Poll) {
    0 <= k < |rounds| && p in rounds[k].polls && p.id !in LeftBy(rounds, k, r)
  }

  /** In the poll after which a wallet was no longer waited for, both its opening and its
      balance were answered. */
  ghost predicate LeavesAnswered(rounds: seq<Round>, r: nat) {
    forall k, p :: Leaves(rounds, r, k, p) ==> p.ask.onOpen.Result? && p.ask.balance.Result?
  }

  /** A wallet leaves the wait once. */
  lemma LeavesOnce(rounds: seq<Round>, ids: seq<nat>, r: nat, k: nat, p: Poll, l: nat, q: Poll)
    requires Waited(rounds, ids, r) && Distinct(ids)
    requires Leaves(rounds, r, k, p) && Leaves(rounds, r, l, q) && p.id == q.id
    ensures k == l && p == q
  {
    if k < l {
      DroppedIsNotPolled(rounds, ids, r, k + 1, l, q);
    } else if l < k {
      DroppedIsNotPolled(rounds, ids, r, l + 1, k, p);
    } else {
      PolledOnce(rounds, ids, r, k, p, q);
    }
  }

  /** A wallet that left the wait was seen unlocked if and only if its opening and its balance
      were answered in the poll after which it left. */
  lemma SeenWhenLeaving(rounds: seq<Round>, ids: seq<nat>, r: nat, k: nat, p: Poll)
    requires Waited(rounds, ids, r) && Distinct(ids) && Leaves(rounds, r, k, p)
    ensures SeenUnlocked(rounds, r, p.id) <==> p.ask.onOpen.Result? && p.ask.balance.Result?
  {
    DroppedWhen(rounds, ids, r, k, p);
    if SeenUnlocked(rounds, r, p.id) {
      var l, q :| 0 <= l < |rounds| && q in rounds[l].polls && q.id == p.id
                  && q.ask.onOpen.Result? && Shows(q.ask.balance, r);
      DroppedWhen(rounds, ids, r, l, q);
      LeavesOnce(rounds, ids, r, k, p, l, q);
    }
  }

  lemma {:induction false} LeavesSometime(rounds: seq<Round>, ids: seq<nat>, r: nat, k: nat, id: nat)
    requires Waited(rounds, ids, r) && k < |rounds| && id in ids && id !in LeftBy(rounds, k, r)
    ensures exists l, p :: Leaves(rounds, r, l, p) && p.id == id
  {
    if id in rounds[k].pending {
      RoundPolls(rounds, ids, r, k, id);
      var p :| p in rounds[k].polls && p.id == id;
      assert Leaves(rounds, r, k, p);
    } else {
      LeavesSometime(rounds, ids, r, k - 1, id);
    }
  }

  /** A wait that ends with nothing pending has seen every wallet unlocked if and only if, in
      the poll after which each wallet left, both opening and balance were answered. */
  lemma EmptyPendingMeansUnlocked(rounds: seq<Round>, ids: seq<nat>, r: nat)
    requires Waited(rounds, ids, r) && Distinct(ids)
    requires |rounds| > 0 && LeftBy(rounds, |rounds| - 1, r) == {}
    ensures (forall id :: id in ids ==> SeenUnlocked(rounds, r, id)) <==> LeavesAnswered(rounds, r)
  {
    if LeavesAnswered(rounds, r) {
      forall id | id in ids
        ensures SeenUnlocked(rounds, r, id)
      {
        LeavesSometime(rounds, ids, r, |rounds| - 1, id);
        var k, p :| Leaves(rounds, r, k, p) && p.id == id;
        SeenWhenLeaving(rounds, ids, r, k, p);
      }
    } else {
      var k, p :| Leaves(rounds, r, k, p) && !(p.ask.onOpen.Result? && p.ask.balance.Result?);
      SeenWhenLeaving(rounds, ids, r, k, p);
      RoundPolls(rounds, ids, r, k, p.id);
      assert p.id in ids;
    }
  }

  // ----- what the wait's calls say

  /** All polls of a wait, in order. */
  function AllPolls(rounds: seq<Round>): seq<Poll> {
    if rounds == [] then [] else AllPolls(rounds[..|rounds| - 1]) + rounds[|rounds| - 1].polls
  }

  lemma {:induction false} PollsJoin(ps: seq<Poll>, qs: seq<Poll>)
    ensures PollsEvents(ps + qs) == PollsEvents(ps) + PollsEvents(qs)
  {
    if qs == [] {
      assert ps + qs == ps;
    } else {
      var init, q := qs[..|qs| - 1], qs[|qs| - 1];
      PollsJoin(ps, init);
      assert (ps + qs)[..|ps + qs| - 1] == ps + init;
      LogAssoc(PollsEvents(ps), PollsEvents(init), PollEvents(q));
    }
  }

  lemma {:induction false} RoundsArePolls(rounds: seq<Round>)
    ensures RoundsEvents(rounds) == PollsEvents(AllPolls(rounds))
  {
    if rounds == [] {
    } else {
      var n := |rounds| - 1;
      RoundsArePolls(rounds[..n]);
      PollsJoin(AllPolls(rounds[..n]), rounds[n].polls);
    }
  }

  lemma {:induction false} AllPollsMembers(rounds: seq<Round>, p: Poll)
    ensures p in AllPolls(rounds) <==> exists k :: 0 <= k < |rounds| && p in rounds[k].polls
  {
    if rounds == [] {
    } else {
      var n := |rounds| - 1;
      AllPollsMembers(rounds[..n], p);
      assert forall k :: 0 <= k < n ==> rounds[..n][k] == rounds[k];
      if k :| 0 <= k < |rounds| && p in rounds[k].polls {
        assert k < n ==> p in rounds[..n][k].polls;
      }
    }
  }

  /** The three calls of each poll, at its place in the log. */
  ghost predicate PolledAt(log: Log, k: nat, p: Poll) {
    && 3 * k + 3 <= |log|
    && log[3 * k] == Event(OpenWallet(Sn(p.id)), p.ask.onOpen)
    && log[3 * k + 1] == Event(Refresh, p.ask.onRefresh)
    && log[3 * k + 2] == Event(GetBalance, p.ask.balance)
  }

  lemma {:induction false} PollsAt(ps: seq<Poll>)
    ensures |PollsEvents(ps)| == 3 * |ps|
    ensures forall k :: 0 <= k < |ps| ==> PolledAt(PollsEvents(ps), k, ps[k])
  {
    if ps == [] {
    } else {
      var n := |ps| - 1;
      PollsAt(ps[..n]);
      forall k | 0 <= k < |ps| ensures PolledAt(PollsEvents(ps), k, ps[k]) {
        if k < n {
          assert PolledAt(PollsEvents(ps[..n]), k, ps[..n][k]);
        }
      }
    }
  }

  /** The place t of the log ends a poll of the wallet that found it opened and unlocked. */
  ghost predicate FoundUnlocked(log: Log, t: int, id: nat, r: nat) {
    Asked(log, t, Sn(id)) && log[t - 3].reply.Result? && Shows(log[t - 1].reply, r)
  }

  lemma FoundInPolls(ps: seq<Poll>, id: nat, r: nat)
    ensures (exists t :: FoundUnlocked(PollsEvents(ps), t, id, r)) <==>
            exists p :: p in ps && p.id == id && p.ask.onOpen.Result? && Shows(p.ask.balance, r)
  {
    var log := PollsEvents(ps);
    PollsAt(ps);
    if t :| FoundUnlocked(log, t, id, r) {
      var k := (t - 3) / 3;
      assert PolledAt(log, k, ps[k]);
      assert log[t - 3].request.OpenWallet?;
      assert t - 3 == 3 * k;
      assert ps[k] in ps;
    }
    if p :| p in ps && p.id == id && p.ask.onOpen.Result? && Shows(p.ask.balance, r) {
      var k :| 0 <= k < |ps| && ps[k] == p;
      assert PolledAt(log, k, ps[k]);
      assert FoundUnlocked(log, 3 * k + 3, id, r);
    }
  }

  /** A wallet was seen unlocked if and only if the calls of the wait, read off the log, opened
      that wallet with an answer and then showed enough. */
  lemma SeenInLog(rounds: seq<Round>, r: nat, id: nat)
    ensures SeenUnlocked(rounds, r, id) <==> exists t :: FoundUnlocked(RoundsEvents(rounds), t, id, r)
  {
    RoundsArePolls(rounds);
    FoundInPolls(AllPolls(rounds), id, r);
    if SeenUnlocked(rounds, r, id) {
      var k, p :| 0 <= k < |rounds| && p in rounds[k].polls && p.id == id
                  && p.ask.onOpen.Result? && Shows(p.ask.balance, r);
      AllPollsMembers(rounds, p);
    }
    if p :| p in AllPolls(rounds) && p.id == id && p.ask.onOpen.Result? && Shows(p.ask.balance, r) {
      AllPollsMembers(rounds, p);
    }
  }

  lemma PollOpens(ps: seq<Poll>, t: nat)
    requires t < |PollsEvents(ps)| && PollsEvents(ps)[t].request.OpenWallet?
    ensures exists p :: p in ps && PollsEvents(ps)[t].request.wallet == Sn(p.id)
  {
    PollsAt(ps);
    var k := t / 3;
    assert PolledAt(PollsEvents(ps), k, ps[k]);
    assert ps[k] in ps;
  }

  /** The wait opens no wallet but those waited for. */
  lemma WaitOpens(rounds: seq<Round>, ids: seq<nat>, r: nat, t: nat) returns (id: nat)
    requires Waited(rounds, ids, r)
    requires t < |RoundsEvents(rounds)| && RoundsEvents(rounds)[t].request.OpenWallet?
    ensures RoundsEvents(rounds)[t].request.wallet == Sn(id) && id in ids
  {
    RoundsArePolls(rounds);
    PollOpens(AllPolls(rounds), t);
    var p :| p in AllPolls(rounds) && RoundsEvents(rounds)[t].request.wallet == Sn(p.id);
    AllPollsMembers(rounds, p);
    var k :| 0 <= k < |rounds| && p in rounds[k].polls;
    RoundPolls(rounds, ids, r, k, p.id);
    id := p.id;
  }

  // ----- a wait that nobody answers

  ghost predicate Unanswered(rounds: seq<Round>) {
    forall k, p :: 0 <= k < |rounds| && p in rounds[k].polls ==> p.ask == Ask(NoResult, NoResult, NoResult)
  }

  /** If no call is answered, the wait is over after one round, with nothing pending and no
      wallet seen. */
  lemma SilentWait(rounds: seq<Round>, ids: seq<nat>, r: nat)
    requires Waited(rounds, ids, r) && Unanswered(rounds) && |rounds| > 0
    ensures |rounds| == 1 && LeftBy(rounds, 0, r) == {}
    ensures forall id :: !SeenUnlocked(rounds, r, id)
  {
    assert LeftBy(rounds, 0, r) == {};
  }

  /** There is such a wait, for one wallet. */
  lemma SilentWaitExists(id: nat, r: nat) returns (rounds: seq<Round>)
    ensures Waited(rounds, [id], r) && Unanswered(rounds) && |rounds| == 1
    ensures LeftBy(rounds, 0, r) == {} && !SeenUnlocked(rounds, r, id)
  {
    var p := Poll(id, Ask(NoResult, NoResult, NoResult));
    rounds := [Round({id}, [p])];
    assert PolledIds([p]) == PendingOf([id], {id}) by {
      assert [id][..0] == [];
    }
    assert {id} == set i | i in [id];
    assert Waited(rounds, [id], r);
    SilentWait(rounds, [id], r);
  }
}
