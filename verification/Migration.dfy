/** The selection of service nodes that migrate to the new staking contract, with their
    contributions, and the key maps that go with them. */
module Migration {
  import opened Stakes
  import opened Options

  datatype Contribution = Contribution(address: string, amount: nat)

  datatype ServiceNode = ServiceNode(
    ed25519: string, active: bool, bls: Option<string>, operator: string,
    contributors: seq<Contribution>, pubkey: string)

  datatype Seed = Seed(bls: string, ed25519: string, contributors: seq<Contribution>)

  /** IndexError: an eligible node without contributors stops the whole migration. */
  datatype Result<+T> = Ok(value: T) | IndexError

  datatype Outcome = Outcome(
    blsMap: map<string, string>, edkeyMap: map<string, string>,
    seeds: seq<Seed>, notMigrating: nat)

  /** Old addresses to new ones; an empty new address counts as not registered. */
  type Addresses = map<string, string>

  function Amounts(cs: seq<Contribution>): (s: seq<nat>)
    ensures |s| == |cs|
  {
    seq(|cs|, i requires 0 <= i < |cs| => cs[i].amount)
  }

  predicate Registered(addresses: Addresses, address: string) {
    address in addresses && addresses[address] != ""
  }

  /** The node gets as far as the comparison with its first contributor. */
  predicate Considered(n: ServiceNode, addresses: Addresses) {
    n.active && n.bls.Some? && n.operator in addresses
  }

  /** The comparison fails: there is no first contributor. */
  predicate Orphaned(n: ServiceNode, addresses: Addresses) {
    Considered(n, addresses) && n.contributors == []
  }

  predicate Migrates(n: ServiceNode, addresses: Addresses) {
    && Considered(n, addresses)
    && n.contributors != []
    && n.operator == n.contributors[0].address
    && forall i :: 0 <= i < |n.contributors| ==> Registered(addresses, n.contributors[i].address)
  }

  function ConvertedAmounts(cs: seq<Contribution>): seq<nat> {
    seq(|cs|, i requires 0 <= i < |cs| => Converted(cs[i].amount))
  }

  /** The stake the seed list must give for a node: its contributors in order, under their
      new addresses, with the converted amounts adjusted to the requirement. */
  ghost predicate IsSeedOf(s: Seed, n: ServiceNode, addresses: Addresses)
    requires Migrates(n, addresses)
  {
    && s.bls == n.bls.value
    && s.ed25519 == n.ed25519
    && |s.contributors| == |n.contributors|
    && (forall i :: 0 <= i < |n.contributors| ==>
          s.contributors[i].address == addresses[n.contributors[i].address])
    && Amounts(s.contributors) == Normalised(ConvertedAmounts(n.contributors), STAKING_REQUIREMENT)
  }

  // ----- one node

  lemma AmountsSnoc(cs: seq<Contribution>, c: Contribution)
    ensures Amounts(cs + [c]) == Amounts(cs) + [c.amount]
    ensures Sum(Amounts(cs + [c])) == Sum(Amounts(cs)) + c.amount
  {
    assert Amounts(cs + [c]) == Amounts(cs) + [c.amount];
    SumSnoc(Amounts(cs), c.amount);
  }

  function NewContribution(c: Contribution, addresses: Addresses): Contribution
    requires c.address in addresses
  {
    Contribution(addresses[c.address], Converted(c.amount))
  }

  /** Converts the contributions of one node, giving up at the first contributor that is not
      registered. */
  method ConvertContributors(cs: seq<Contribution>, addresses: Addresses)
    returns (ok: bool, contributors: seq<Contribution>, sum: nat)
    ensures ok <==> forall i :: 0 <= i < |cs| ==> Registered(addresses, cs[i].address)
    ensures ok ==> |contributors| == |cs|
    ensures ok ==> forall i :: 0 <= i < |cs| ==> contributors[i].address == addresses[cs[i].address]
    ensures ok ==> Amounts(contributors) == ConvertedAmounts(cs) && sum == Sum(Amounts(contributors))
  {
    ok := true;
    contributors := [];
    sum := 0;
    for k := 0 to |cs|
      invariant ok && |contributors| == k
      invariant forall i :: 0 <= i < k ==> Registered(addresses, cs[i].address)
      invariant forall i :: 0 <= i < k ==> contributors[i] == NewContribution(cs[i], addresses)
      invariant sum == Sum(Amounts(contributors))
    {
      var cont := cs[k];
      if cont.address !in addresses || |addresses[cont.address]| == 0 {
        return false, contributors, sum;
      }
      var c := NewContribution(cont, addresses);
      AmountsSnoc(contributors, c);
      contributors := contributors + [c];
      sum := sum + contributors[k].amount;
    }
    assert Amounts(contributors) == ConvertedAmounts(cs);
  }

  function SetAmount(cs: seq<Contribution>, i: nat, amount: nat): (s: seq<Contribution>)
    requires i < |cs|
    ensures |s| == |cs| && Amounts(s) == Amounts(cs)[i := amount]
    ensures forall j :: 0 <= j < |cs| ==> s[j].address == cs[j].address
  {
    cs[i := Contribution(cs[i].address, amount)]
  }

  lemma ScaledStep(scaled: seq<nat>, amounts: seq<nat>, k: nat)
    requires |scaled| == |amounts| && k < |scaled|
    ensures (scaled[..k] + amounts[k..])[k := scaled[k]] == scaled[..k + 1] + amounts[k + 1..]
    ensures Sum(scaled[..k + 1]) == Sum(scaled[..k]) + scaled[k]
  {
    assert scaled[..k + 1] == scaled[..k] + [scaled[k]];
    SumSnoc(scaled[..k], scaled[k]);
  }

  /** Replaces every amount by its share of r. */
  method Rescale(contributors: seq<Contribution>, sum: nat, r: nat, ghost shares: seq<nat>)
    returns (adjusted: seq<Contribution>, newSum: nat)
    requires |shares| == |contributors|
    requires forall i :: 0 <= i < |shares| ==> shares[i] == Share(contributors[i].amount, r, sum)
    ensures |adjusted| == |contributors|
    ensures forall i :: 0 <= i < |adjusted| ==> adjusted[i].address == contributors[i].address
    ensures Amounts(adjusted) == shares && newSum == Sum(shares)
  {
    ghost var amounts := Amounts(contributors);
    adjusted := contributors;
    newSum := 0;
    for k := 0 to |contributors|
      invariant |adjusted| == |contributors|
      invariant forall i :: 0 <= i < |adjusted| ==> adjusted[i].address == contributors[i].address
      invariant Amounts(adjusted) == shares[..k] + amounts[k..]
      invariant newSum == Sum(shares[..k])
    {
      assert Amounts(adjusted)[k] == amounts[k];
      ScaledStep(shares, amounts, k);
      adjusted := SetAmount(adjusted, k, Share(adjusted[k].amount, r, sum));
      assert Amounts(adjusted)[k] == shares[k];
      newSum := newSum + adjusted[k].amount;
    }
    assert shares[..|amounts|] == shares && amounts[|amounts|..] == [];
  }

  /** Adjusts the contributions, one after the other, to the staking requirement r. */
  method Normalise(contributors: seq<Contribution>, sum: nat, r: nat) returns (adjusted: seq<Contribution>)
    requires contributors != [] && sum == Sum(Amounts(contributors)) && r > 0
    ensures |adjusted| == |contributors|
    ensures forall i :: 0 <= i < |adjusted| ==> adjusted[i].address == contributors[i].address
    ensures Amounts(adjusted) == Normalised(Amounts(contributors), r)
    ensures Sum(Amounts(adjusted)) == r
  {
    ghost var amounts := Amounts(contributors);
    Conservation(amounts, r);
    adjusted := contributors;
    if sum != r {
      var newSum;
      adjusted, newSum := Rescale(contributors, sum, r, Scaled(amounts, r));
      if newSum < r {
        adjusted := SetAmount(adjusted, 0, adjusted[0].amount + (r - newSum));
      }
    }
  }

  ghost predicate SeedMatches(s: Seed, n: ServiceNode, addresses: Addresses) {
    Migrates(n, addresses) && IsSeedOf(s, n, addresses)
  }

  /** The seed of one node, if it migrates. */
  method SeedFor(n: ServiceNode, addresses: Addresses) returns (r: Result<Option<Seed>>)
    ensures r.IndexError? <==> Orphaned(n, addresses)
    ensures r.IndexError? <==> n.active && n.bls.Some? && n.operator in addresses && n.contributors == []
    ensures r.Ok? ==> (r.value.Some? <==> Migrates(n, addresses))
    ensures r.Ok? && r.value.Some? ==> SeedMatches(r.value.value, n, addresses)
  {
    if !n.active {
      return Ok(None);
    }
    if n.bls.None? {
      return Ok(None);
    }
    if n.operator !in addresses {
      return Ok(None);
    }
    if n.contributors == [] {
      return IndexError;
    }
    if n.operator != n.contributors[0].address {
      return Ok(None);
    }
    var ok, contributors, sum := ConvertContributors(n.contributors, addresses);
    if !ok {
      return Ok(None);
    }
    contributors := Normalise(contributors, sum, STAKING_REQUIREMENT);
    r := Ok(Some(Seed(n.bls.value, n.ed25519, contributors)));
  }

  // ----- all nodes

  /** `picked` lists, in order, the places of exactly the nodes that migrate. */
  ghost predicate Picks(picked: seq<nat>, nodes: seq<ServiceNode>, addresses: Addresses) {
    && (forall i, j :: 0 <= i < j < |picked| ==> picked[i] < picked[j])
    && (forall k :: 0 <= k < |picked| ==> picked[k] < |nodes|)
    && (forall p :: 0 <= p < |nodes| ==> (p in picked <==> Migrates(nodes[p], addresses)))
  }

  ghost predicate SeedsMatch(seeds: seq<Seed>, picked: seq<nat>, nodes: seq<ServiceNode>, addresses: Addresses) {
    && Picks(picked, nodes, addresses)
    && |seeds| == |picked|
    && forall k :: 0 <= k < |picked| ==> SeedMatches(seeds[k], nodes[picked[k]], addresses)
  }

  /** An assignment made to a map, unless `made` says that it was left out. */
  datatype Entry = Entry(key: string, value: string, made: bool)

  /** Entry k is the last one made for the key, and it sets the value. */
  ghost predicate Provides(entries: seq<Entry>, k: int, key: string, value: string) {
    && 0 <= k < |entries|
    && entries[k] == Entry(key, value, true)
    && forall l :: k < l < |entries| ==> !(entries[l].made && entries[l].key == key)
  }

  /** The map that results from the assignments: its keys are the keys assigned to, each
      with the value assigned last. */
  ghost predicate ResultOf(m: map<string, string>, entries: seq<Entry>) {
    && (forall k :: 0 <= k < |entries| && entries[k].made ==> entries[k].key in m)
    && (forall key :: key in m ==> exists k :: Provides(entries, k, key, m[key]))
  }

  lemma ResultOfSnoc(m: map<string, string>, entries: seq<Entry>, e: Entry)
    requires ResultOf(m, entries)
    ensures ResultOf(if e.made then m[e.key := e.value] else m, entries + [e])
  {
    var m' := if e.made then m[e.key := e.value] else m;
    forall key | key in m'
      ensures exists k :: Provides(entries + [e], k, key, m'[key])
    {
      if e.made && e.key == key {
        assert Provides(entries + [e], |entries|, key, m'[key]);
      } else {
        var k :| Provides(entries, k, key, m[key]);
        assert Provides(entries + [e], k, key, m'[key]);
      }
    }
  }

  function BlsEntries(seeds: seq<Seed>): seq<Entry> {
    seq(|seeds|, k requires 0 <= k < |seeds| => Entry(seeds[k].ed25519, seeds[k].bls, true))
  }

  function EdkeyEntry(n: ServiceNode): Entry {
    Entry(n.pubkey, n.ed25519, n.pubkey != n.ed25519)
  }

  function EdkeyEntries(picked: seq<nat>, nodes: seq<ServiceNode>): seq<Entry>
    requires forall k :: 0 <= k < |picked| ==> picked[k] < |nodes|
  {
    seq(|picked|, k requires 0 <= k < |picked| => EdkeyEntry(nodes[picked[k]]))
  }

  /** What the migration must have produced for the given nodes. */
  ghost predicate Accounts(o: Outcome, picked: seq<nat>, nodes: seq<ServiceNode>, addresses: Addresses) {
    && SeedsMatch(o.seeds, picked, nodes, addresses)
    && o.notMigrating + |o.seeds| == |nodes|
    && ResultOf(o.blsMap, BlsEntries(o.seeds))
    && ResultOf(o.edkeyMap, EdkeyEntries(picked, nodes))
  }

  lemma AccountsSkip(o: Outcome, picked: seq<nat>, nodes: seq<ServiceNode>, addresses: Addresses, k: nat)
    requires k < |nodes| && Accounts(o, picked, nodes[..k], addresses) && !Migrates(nodes[k], addresses)
    ensures Accounts(o.(notMigrating := o.notMigrating + 1), picked, nodes[..k + 1], addresses)
  {
    assert EdkeyEntries(picked, nodes[..k + 1]) == EdkeyEntries(picked, nodes[..k]);
  }

  function AddSeed(o: Outcome, s: Seed, n: ServiceNode): Outcome {
    Outcome(
      o.blsMap[s.ed25519 := s.bls],
      if n.pubkey != n.ed25519 then o.edkeyMap[n.pubkey := n.ed25519] else o.edkeyMap,
      o.seeds + [s], o.notMigrating)
  }

  lemma AccountsAdd(o: Outcome, picked: seq<nat>, nodes: seq<ServiceNode>, addresses: Addresses, k: nat, s: Seed)
    requires k < |nodes| && Accounts(o, picked, nodes[..k], addresses) && SeedMatches(s, nodes[k], addresses)
    ensures Accounts(AddSeed(o, s, nodes[k]), picked + [k], nodes[..k + 1], addresses)
  {
    var n, seeds := nodes[k], o.seeds + [s];
    assert Picks(picked + [k], nodes[..k + 1], addresses);
    assert BlsEntries(seeds) == BlsEntries(o.seeds) + [Entry(s.ed25519, s.bls, true)];
    ResultOfSnoc(o.blsMap, BlsEntries(o.seeds), Entry(s.ed25519, s.bls, true));
    assert EdkeyEntries(picked + [k], nodes[..k + 1]) == EdkeyEntries(picked, nodes[..k]) + [EdkeyEntry(n)];
    ResultOfSnoc(o.edkeyMap, EdkeyEntries(picked, nodes[..k]), EdkeyEntry(n));
  }

  const NO_OUTCOME: Outcome := Outcome(map[], map[], [], 0)

  lemma AccountsStart(nodes: seq<ServiceNode>, addresses: Addresses)
    ensures Accounts(NO_OUTCOME, [], nodes[..0], addresses)
  {
  }

  lemma AccountsEnd(o: Outcome, picked: seq<nat>, nodes: seq<ServiceNode>, addresses: Addresses)
    requires Accounts(o, picked, nodes[..|nodes|], addresses)
    ensures Accounts(o, picked, nodes, addresses)
  {
    assert nodes[..|nodes|] == nodes;
  }

  /** Takes down what became of one node. */
  function Record(o: Outcome, seed: Option<Seed>, n: ServiceNode): Outcome {
    match seed
    case None => o.(notMigrating := o.notMigrating + 1)
    case Some(s) => AddSeed(o, s, n)
  }

  lemma AccountsNext(o: Outcome, picked: seq<nat>, nodes: seq<ServiceNode>, addresses: Addresses, k: nat,
                     seed: Option<Seed>)
    requires k < |nodes| && Accounts(o, picked, nodes[..k], addresses)
    requires seed.Some? <==> Migrates(nodes[k], addresses)
    requires seed.Some? ==> SeedMatches(seed.value, nodes[k], addresses)
    ensures Accounts(Record(o, seed, nodes[k]), if seed.Some? then picked + [k] else picked, nodes[..k + 1], addresses)
  {
    match seed
    case None => AccountsSkip(o, picked, nodes, addresses, k);
    case Some(s) => AccountsAdd(o, picked, nodes, addresses, k, s);
  }

  /** The turn of one node. */
  method MigrateNode(o: Outcome, ghost picked: seq<nat>, nodes: seq<ServiceNode>, addresses: Addresses, k: nat)
    returns (o': Outcome, ghost picked': seq<nat>, failed: bool)
    requires k < |nodes| && Accounts(o, picked, nodes[..k], addresses)
    ensures failed <==> Orphaned(nodes[k], addresses)
    ensures !failed ==> Accounts(o', picked', nodes[..k + 1], addresses)
  {
    var n := nodes[k];
    var seed := SeedFor(n, addresses);
    if seed.IndexError? {
      return o, picked, true;
    }
    AccountsNext(o, picked, nodes, addresses, k, seed.value);
    o' := Record(o, seed.value, n);
    picked' := if seed.value.Some? then picked + [k] else picked;
    failed := false;
  }

  /** The whole migration. It stops with an IndexError exactly when some node that gets as
      far as the comparison with its first contributor has no contributors. */
  method GetMigration(nodes: seq<ServiceNode>, addresses: Addresses)
    returns (r: Result<Outcome>, ghost picked: seq<nat>)
    ensures r.IndexError? <==> exists i :: 0 <= i < |nodes| && Orphaned(nodes[i], addresses)
    ensures r.Ok? ==> Accounts(r.value, picked, nodes, addresses)
  {
    var o := NO_OUTCOME;
    picked := [];
    AccountsStart(nodes, addresses);
    for k := 0 to |nodes|
      invariant forall i :: 0 <= i < k ==> !Orphaned(nodes[i], addresses)
      // compared with true, the accounting is carried along as a whole
      invariant Accounts(o, picked, nodes[..k], addresses) == true
    {
      var failed;
      o, picked, failed := MigrateNode(o, picked, nodes, addresses, k);
      if failed {
        return IndexError, picked;
      }
    }
    AccountsEnd(o, picked, nodes, addresses);
    r := Ok(o);
  }

  // ----- what follows for the result

  /** Every seed is fully funded, in the operator's name first. */
  lemma SeedsAreFunded(o: Outcome, picked: seq<nat>, nodes: seq<ServiceNode>, addresses: Addresses, k: nat)
    requires Accounts(o, picked, nodes, addresses) && k < |o.seeds|
    ensures Sum(Amounts(o.seeds[k].contributors)) == STAKING_REQUIREMENT
    ensures var n := nodes[picked[k]];
            n.operator in addresses && o.seeds[k].contributors[0].address == addresses[n.operator] != ""
  {
    var n := nodes[picked[k]];
    assert SeedMatches(o.seeds[k], n, addresses);
    Conservation(ConvertedAmounts(n.contributors), STAKING_REQUIREMENT);
  }

  /** A seed carries its node's keys and, in order, all its contributors' new addresses. */
  lemma SeedCarriesOver(o: Outcome, picked: seq<nat>, nodes: seq<ServiceNode>, addresses: Addresses, k: nat)
    requires Accounts(o, picked, nodes, addresses) && k < |o.seeds|
    ensures |picked| == |o.seeds| && picked[k] < |nodes|
    ensures var n, s := nodes[picked[k]], o.seeds[k];
            && n.bls == Some(s.bls) && n.ed25519 == s.ed25519
            && |s.contributors| == |n.contributors|
            && (forall i :: 0 <= i < |s.contributors| ==>
                  var address := n.contributors[i].address;
                  address in addresses && addresses[address] == s.contributors[i].address != "")
  {
    assert SeedMatches(o.seeds[k], nodes[picked[k]], addresses);
  }

  /** A node whose converted contributions add up to the requirement keeps them: each seed
      amount is the largest whole number within 54 per cent of the contribution. */
  lemma ExactStakesKept(o: Outcome, picked: seq<nat>, nodes: seq<ServiceNode>, addresses: Addresses, k: nat, i: nat)
    requires Accounts(o, picked, nodes, addresses) && k < |o.seeds|
    requires Sum(ConvertedAmounts(nodes[picked[k]].contributors)) == STAKING_REQUIREMENT
    requires i < |o.seeds[k].contributors|
    ensures |o.seeds[k].contributors| == |nodes[picked[k]].contributors|
    ensures var a, amount := o.seeds[k].contributors[i].amount, nodes[picked[k]].contributors[i].amount;
            100 * a <= 54 * amount < 100 * (a + 1)
  {
    var cs := nodes[picked[k]].contributors;
    assert SeedMatches(o.seeds[k], nodes[picked[k]], addresses);
    LeftAlone(ConvertedAmounts(cs), STAKING_REQUIREMENT);
    assert Amounts(o.seeds[k].contributors)[i] == Converted(cs[i].amount);
  }

  /** A node is among those seeded exactly when it is active, has a BLS key, its operator is the
      first contributor, and all contributors have a new address. */
  lemma SeededNodes(o: Outcome, picked: seq<nat>, nodes: seq<ServiceNode>, addresses: Addresses, p: nat)
    requires Accounts(o, picked, nodes, addresses) && p < |nodes|
    ensures var n := nodes[p];
            p in picked <==>
            && n.active && n.bls.Some? && n.contributors != [] && n.contributors[0].address == n.operator
            && forall c :: c in n.contributors ==> c.address in addresses && addresses[c.address] != ""
  {
    var n := nodes[p];
    if p in picked {
      forall c | c in n.contributors
        ensures c.address in addresses && addresses[c.address] != ""
      {
        var i :| 0 <= i < |n.contributors| && n.contributors[i] == c;
        assert Registered(addresses, n.contributors[i].address);
      }
    } else if n.contributors != [] {
      assert n.contributors[0] in n.contributors;
      assert forall i :: 0 <= i < |n.contributors| ==> n.contributors[i] in n.contributors;
    }
  }

  ghost function Places(n: nat): (s: set<int>)
    ensures |s| == n && forall p :: p in s <==> 0 <= p < n
  {
    if n == 0 then {} else Places(n - 1) + {n - 1}
  }

  lemma {:induction false} PickedSet(picked: seq<nat>) returns (s: set<int>)
    requires forall i, j :: 0 <= i < j < |picked| ==> picked[i] < picked[j]
    ensures |s| == |picked| && forall p :: p in s <==> exists i :: 0 <= i < |picked| && picked[i] == p
  {
    if picked == [] {
      s := {};
    } else {
      var n := |picked| - 1;
      var init := picked[..n];
      var t := PickedSet(init);
      s := t + {picked[n] as int};
      forall i | 0 <= i < n ensures picked[i] == init[i] && picked[i] in t {
      }
      assert picked[n] !in t;
      forall p ensures p in s <==> exists i :: 0 <= i < |picked| && picked[i] == p {
        if p in t {
          var i :| 0 <= i < n && init[i] == p;
          assert picked[i] == p;
        }
      }
    }
  }

  lemma OtherPlaces(picked: seq<nat>, n: nat) returns (others: set<int>)
    requires forall i, j :: 0 <= i < j < |picked| ==> picked[i] < picked[j]
    requires forall i :: 0 <= i < |picked| ==> picked[i] < n
    ensures forall p :: p in others <==> 0 <= p < n && p !in picked
    ensures |others| + |picked| == n
  {
    var all := Places(n);
    var seeded := PickedSet(picked);
    assert forall p :: p in seeded ==> p in picked && p in all;
    others := all - seeded;
    assert |others| == |all| - |seeded|;
  }

  /** The count of nodes that do not migrate is the number of nodes without a seed. */
  lemma SkippedNodes(o: Outcome, picked: seq<nat>, nodes: seq<ServiceNode>, addresses: Addresses)
    returns (skipped: set<int>)
    requires Accounts(o, picked, nodes, addresses)
    ensures forall p :: p in skipped <==> 0 <= p < |nodes| && p !in picked
    ensures o.notMigrating == |skipped|
  {
    skipped := OtherPlaces(picked, |nodes|);
  }

  /** A map's keys are the keys of the assignments that were made. */
  lemma ResultKeys(m: map<string, string>, entries: seq<Entry>, key: string)
    requires ResultOf(m, entries)
    ensures key in m <==> exists k :: 0 <= k < |entries| && entries[k].made && entries[k].key == key
  {
    if key in m {
      var k :| Provides(entries, k, key, m[key]);
      assert entries[k].made && entries[k].key == key;
    }
  }

  /** The keys of the BLS map are the ed25519 keys of the seeded nodes. */
  lemma BlsKeys(o: Outcome, picked: seq<nat>, nodes: seq<ServiceNode>, addresses: Addresses, key: string)
    requires Accounts(o, picked, nodes, addresses)
    ensures key in o.blsMap <==> exists k :: 0 <= k < |o.seeds| && o.seeds[k].ed25519 == key
  {
    var entries := BlsEntries(o.seeds);
    ResultKeys(o.blsMap, entries, key);
    if k :| 0 <= k < |entries| && entries[k].made && entries[k].key == key {
      assert o.seeds[k].ed25519 == key;
    }
    if k :| 0 <= k < |o.seeds| && o.seeds[k].ed25519 == key {
      assert entries[k].made && entries[k].key == key;
    }
  }

  /** Every key of the BLS map is sent to the BLS key of the last migrating node with that
      ed25519 key. */
  lemma BlsValues(o: Outcome, picked: seq<nat>, nodes: seq<ServiceNode>, addresses: Addresses, key: string)
    requires Accounts(o, picked, nodes, addresses)
    ensures forall k :: 0 <= k < |picked| ==> picked[k] < |nodes| && nodes[picked[k]].ed25519 in o.blsMap
    ensures key in o.blsMap ==>
              exists k :: 0 <= k < |picked| && nodes[picked[k]].ed25519 == key
                && nodes[picked[k]].bls == Some(o.blsMap[key])
                && forall l :: k < l < |picked| ==> nodes[picked[l]].ed25519 != key
  {
    var entries := BlsEntries(o.seeds);
    forall k | 0 <= k < |picked|
      ensures nodes[picked[k]].ed25519 in o.blsMap
      ensures entries[k] == Entry(nodes[picked[k]].ed25519, nodes[picked[k]].bls.value, true)
    {
      SeedCarriesOver(o, picked, nodes, addresses, k);
      assert entries[k].made;
    }
    if key in o.blsMap {
      var k :| Provides(entries, k, key, o.blsMap[key]);
      SeedCarriesOver(o, picked, nodes, addresses, k);
      assert entries[k].key == nodes[picked[k]].ed25519;
    }
  }

  /** A key is replaced exactly when it is the service node key, and not the ed25519 key, of a
      migrating node. */
  lemma EdkeysReplaced(o: Outcome, picked: seq<nat>, nodes: seq<ServiceNode>, addresses: Addresses, key: string)
    requires Accounts(o, picked, nodes, addresses)
    ensures forall k :: 0 <= k < |picked| ==> picked[k] < |nodes|
    ensures key in o.edkeyMap <==>
              exists k :: 0 <= k < |picked| && nodes[picked[k]].pubkey == key != nodes[picked[k]].ed25519
  {
    var entries := EdkeyEntries(picked, nodes);
    ResultKeys(o.edkeyMap, entries, key);
    if k :| 0 <= k < |picked| && nodes[picked[k]].pubkey == key != nodes[picked[k]].ed25519 {
      assert entries[k].made && entries[k].key == key;
    }
    if k :| 0 <= k < |entries| && entries[k].made && entries[k].key == key {
      assert nodes[picked[k]].pubkey == key != nodes[picked[k]].ed25519;
    }
  }

  lemma LastReplacement(picked: seq<nat>, nodes: seq<ServiceNode>, k: nat, key: string, value: string)
    requires forall l :: 0 <= l < |picked| ==> picked[l] < |nodes|
    requires Provides(EdkeyEntries(picked, nodes), k, key, value)
    ensures k < |picked| && nodes[picked[k]].pubkey == key && nodes[picked[k]].ed25519 == value != key
    ensures forall l :: k < l < |picked| && nodes[picked[l]].pubkey == key ==> nodes[picked[l]].ed25519 == key
  {
    var entries := EdkeyEntries(picked, nodes);
    assert forall l :: k <= l < |picked| ==> entries[l] == EdkeyEntry(nodes[picked[l]]);
  }

  /** It is replaced by the ed25519 key of the last such node. */
  lemma EdkeyValues(o: Outcome, picked: seq<nat>, nodes: seq<ServiceNode>, addresses: Addresses, key: string)
    returns (k: nat)
    requires Accounts(o, picked, nodes, addresses) && key in o.edkeyMap
    ensures forall l :: 0 <= l < |picked| ==> picked[l] < |nodes|
    ensures k < |picked| && nodes[picked[k]].pubkey == key && nodes[picked[k]].ed25519 == o.edkeyMap[key] != key
    ensures forall l :: k < l < |picked| && nodes[picked[l]].pubkey == key ==> nodes[picked[l]].ed25519 == key
  {
    k :| Provides(EdkeyEntries(picked, nodes), k, key, o.edkeyMap[key]);
    LastReplacement(picked, nodes, k, key, o.edkeyMap[key]);
  }

  /** No key is listed as its own replacement, and every replacement is the key of a seeded
      node. */
  lemma EdkeyReplacements(o: Outcome, picked: seq<nat>, nodes: seq<ServiceNode>, addresses: Addresses, key: string)
    requires Accounts(o, picked, nodes, addresses) && key in o.edkeyMap
    ensures o.edkeyMap[key] != key && o.edkeyMap[key] in o.blsMap
  {
    var k :| Provides(EdkeyEntries(picked, nodes), k, key, o.edkeyMap[key]);
    assert SeedMatches(o.seeds[k], nodes[picked[k]], addresses);
    BlsKeys(o, picked, nodes, addresses, o.seeds[k].ed25519);
  }

  // ----- the contract leaves no choice

  /** The next pick of p is one of q's later picks, so it is no smaller than q's next one. */
  lemma NotBefore(p: seq<nat>, q: seq<nat>, k: nat)
    requires k < |p| && k < |q| && p[..k] == q[..k] && p[k] in q
    requires forall i, j :: 0 <= i < j < |p| ==> p[i] < p[j]
    requires forall i, j :: 0 <= i < j < |q| ==> q[i] < q[j]
    ensures q[k] <= p[k]
  {
    forall i | 0 <= i < k
      ensures q[i] < p[k]
    {
      assert p[..k][i] == q[..k][i];
    }
    var j :| 0 <= j < |q| && q[j] == p[k];
  }

  lemma {:induction false} PicksUnique(p: seq<nat>, q: seq<nat>, nodes: seq<ServiceNode>, addresses: Addresses, k: nat)
    requires Picks(p, nodes, addresses) && Picks(q, nodes, addresses)
    requires k <= |p| && k <= |q|
    ensures p[..k] == q[..k]
  {
    if k == 0 {
    } else {
      PicksUnique(p, q, nodes, addresses, k - 1);
      assert p[k - 1] in q && q[k - 1] in p;
      NotBefore(p, q, k - 1);
      NotBefore(q, p, k - 1);
      assert p[..k] == p[..k - 1] + [p[k - 1]] && q[..k] == q[..k - 1] + [q[k - 1]];
    }
  }

  lemma NotAmong(p: seq<nat>, q: seq<nat>)
    requires |q| < |p| && p[..|q|] == q[..|q|]
    requires forall i, j :: 0 <= i < j < |p| ==> p[i] < p[j]
    ensures p[|q|] !in q
  {
    forall i | 0 <= i < |q|
      ensures q[i] < p[|q|]
    {
      assert p[..|q|][i] == q[..|q|][i];
    }
  }

  lemma PicksSameLength(p: seq<nat>, q: seq<nat>, nodes: seq<ServiceNode>, addresses: Addresses)
    requires Picks(p, nodes, addresses) && Picks(q, nodes, addresses)
    ensures |p| <= |q|
  {
    if |p| > |q| {
      PicksUnique(p, q, nodes, addresses, |q|);
      NotAmong(p, q);
    }
  }

  lemma ResultOfAgrees(m: map<string, string>, m': map<string, string>, entries: seq<Entry>)
    requires ResultOf(m, entries) && ResultOf(m', entries)
    ensures forall key :: key in m ==> key in m' && m[key] == m'[key]
  {
    forall key | key in m
      ensures key in m' && m[key] == m'[key]
    {
      var k :| Provides(entries, k, key, m[key]);
      assert entries[k].made;
      var l :| Provides(entries, l, key, m'[key]);
    }
  }

  lemma ResultOfUnique(m: map<string, string>, m': map<string, string>, entries: seq<Entry>)
    requires ResultOf(m, entries) && ResultOf(m', entries)
    ensures m == m'
  {
    ResultOfAgrees(m, m', entries);
    ResultOfAgrees(m', m, entries);
  }

  lemma SeedUnique(s: Seed, t: Seed, n: ServiceNode, addresses: Addresses)
    requires SeedMatches(s, n, addresses) && SeedMatches(t, n, addresses)
    ensures s == t
  {
    forall i | 0 <= i < |s.contributors|
      ensures s.contributors[i] == t.contributors[i]
    {
      assert Amounts(s.contributors)[i] == Amounts(t.contributors)[i];
    }
  }

  /** Two outcomes that account for the same nodes are the same. */
  lemma OutcomeUnique(o: Outcome, p: seq<nat>, o': Outcome, p': seq<nat>, nodes: seq<ServiceNode>, addresses: Addresses)
    requires Accounts(o, p, nodes, addresses) && Accounts(o', p', nodes, addresses)
    ensures o == o' && p == p'
  {
    PicksSameLength(p, p', nodes, addresses);
    PicksSameLength(p', p, nodes, addresses);
    PicksUnique(p, p', nodes, addresses, |p|);
    assert p[..|p|] == p && p'[..|p'|] == p';
    forall k | 0 <= k < |p|
      ensures o.seeds[k] == o'.seeds[k]
    {
      SeedUnique(o.seeds[k], o'.seeds[k], nodes[p[k]], addresses);
    }
    assert o.seeds == o'.seeds;
    ResultOfUnique(o.blsMap, o'.blsMap, BlsEntries(o.seeds));
    ResultOfUnique(o.edkeyMap, o'.edkeyMap, EdkeyEntries(p, nodes));
  }
}
