/** The ports of the local test network. */
module PortPlan {

  /** Who listens on a port: the bootstrap node, the wallet, the Ethereum node, service node
      number i and regular node number i, counted from one. */
  datatype Listener =
    | BootstrapP2P | BootstrapRpc | WalletRpc | Ethereum
    | ServiceP2P(i: nat) | ServiceRpc(i: nat) | ServiceQuorumnet(i: nat)
    | RegularP2P(i: nat) | RegularRpc(i: nat)

  function Port(l: Listener): nat {
    match l
    case BootstrapP2P => 18080
    case BootstrapRpc => 18081
    case WalletRpc => 18084
    case Ethereum => 8545
    case ServiceP2P(i) => 18100 + i
    case ServiceRpc(i) => 18200 + i
    case ServiceQuorumnet(i) => 18300 + i
    case RegularP2P(i) => 18400 + i
    case RegularRpc(i) => 18500 + i
  }

  /** The listener is part of a network with the given numbers of nodes. */
  predicate Started(l: Listener, service: nat, regular: nat) {
    match l
    case ServiceP2P(i) => 1 <= i <= service
    case ServiceRpc(i) => 1 <= i <= service
    case ServiceQuorumnet(i) => 1 <= i <= service
    case RegularP2P(i) => 1 <= i <= regular
    case RegularRpc(i) => 1 <= i <= regular
    case _ => true
  }

  ghost predicate Collide(l: Listener, m: Listener) {
    l != m && Port(l) == Port(m)
  }

  /** No two listeners share a port if and only if there are at most a hundred nodes of
      either kind. */
  lemma NoCollisions(service: nat, regular: nat)
    ensures (forall l, m :: Started(l, service, regular) && Started(m, service, regular) ==> !Collide(l, m))
       <==> service <= 100 && regular <= 100
  {
    if service > 100 {
      assert Started(ServiceP2P(101), service, regular) && Started(ServiceRpc(1), service, regular);
      assert Collide(ServiceP2P(101), ServiceRpc(1));
    } else if regular > 100 {
      assert Started(RegularP2P(101), service, regular) && Started(RegularRpc(1), service, regular);
      assert Collide(RegularP2P(101), RegularRpc(1));
    }
  }
}
