/**
  The server's client registry (Projeto_serv.c): the global array
  `clientes[3]` and its fill count `num_clientes`, held here as the sequence
  of the first `num_clientes` entries, and adicionar_cliente.
*/
module Clients {
  import opened Common

  /** The length of `clientes`. */
  const Capacity: nat := 3

  /** An IPv4 address as the `s_addr` the registry compares. */
  type IpAddr = u32

  /** `clientes[0..num_clientes]`. */
  datatype Registry = Registry(clients: seq<IpAddr>)

  /** At most three entries, no address twice. */
  predicate Valid(r: Registry)
  {
    && |r.clients| <= Capacity
    && forall i, j :: 0 <= i < j < |r.clients| ==> r.clients[i] != r.clients[j]
  }

  /** The registry at server start: num_clientes = 0. */
  function Empty(): (r: Registry)
    ensures Valid(r) && |r.clients| == 0
  {
    Registry([])
  }

  /**
    adicionar_cliente: an address already present changes nothing; a new
    one goes to index num_clientes when there is room; when all three slots
    are taken the registry stays as it was.
  */
  function Add(r: Registry, ip: IpAddr): (r': Registry)
    ensures Valid(r) ==> Valid(r')
    ensures r.clients <= r'.clients && |r'.clients| <= |r.clients| + 1
    ensures ip in r'.clients <==> ip in r.clients || |r.clients| < Capacity
    ensures forall a :: a in r'.clients && a != ip ==> a in r.clients
  {
    if ip in r.clients then r
    else if |r.clients| < Capacity then Registry(r.clients + [ip])
    else r
  }

  /** Adding an address a second time changes nothing. */
  lemma LemmaAddIdempotent(r: Registry, ip: IpAddr)
    ensures Add(Add(r, ip), ip) == Add(r, ip)
    ensures ip in r.clients ==> Add(r, ip) == r
  {
  }

  /** The scan of `clientes[0..num_clientes]` followed by the bounded append, as written. */
  method AddClient(r: Registry, ip: IpAddr) returns (r': Registry)
    ensures r' == Add(r, ip)
  {
    var i := 0;
    while i < |r.clients|
      invariant 0 <= i <= |r.clients|
      invariant ip !in r.clients[..i]
    {
      if r.clients[i] == ip {
        return r;
      }
      i := i + 1;
    }
    assert r.clients[..i] == r.clients;
    if |r.clients| < Capacity {
      r' := Registry(r.clients + [ip]);
    } else {
      r' := r;
    }
  }

  /** Any sequence of registrations, each one an adicionar_cliente call. */
  function AddAll(r: Registry, ips: seq<IpAddr>): Registry
    decreases |ips|
  {
    if |ips| == 0 then r else AddAll(Add(r, ips[0]), ips[1..])
  }

  /**
    num_clientes <= 3 and distinct entries hold however many registrations
    follow; entries are never removed or moved, and only offered addresses
    get in.
  */
  lemma {:induction false} LemmaAddAllValid(r: Registry, ips: seq<IpAddr>)
    requires Valid(r)
    decreases |ips|
    ensures Valid(AddAll(r, ips))
    ensures r.clients <= AddAll(r, ips).clients
    ensures forall a :: a in AddAll(r, ips).clients ==> a in r.clients || a in ips
  {
    if |ips| > 0 {
      LemmaAddAllValid(Add(r, ips[0]), ips[1..]);
    }
  }
}
