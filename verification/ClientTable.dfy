// The table of connected clients (src/clients.c): 1024 buckets of linked
// nodes, found by socket descriptor.
module ClientTable {
  import opened Bytes
  import opened Frames
  import ClientState
  import Protocol

  const HASHTABLE_SIZE := 1024

  class Node {
    const clientSocketfd: nat
    const client: Client
    var next: Node?

    constructor (client: Client, next: Node?)
      requires client.socketfd >= 0
      ensures this.client == client && this.next == next && clientSocketfd == client.socketfd
    {
      this.client, this.next, clientSocketfd := client, next, client.socketfd;
    }
  }

  function After(chain: seq<Node>, k: nat): Node? {
    if k + 1 < |chain| then chain[k + 1] else null
  }

  // The list that starts at head consists of exactly these nodes.
  ghost predicate Linked(head: Node?, chain: seq<Node>)
    reads set n | n in chain
  {
    && head == (if chain == [] then null else chain[0])
    && forall k | 0 <= k < |chain| :: chain[k].next == After(chain, k)
  }

  function ClientsOf(chain: seq<Node>): seq<Client> {
    seq(|chain|, i requires 0 <= i < |chain| => chain[i].client)
  }

  ghost predicate ChainOk(chain: seq<Node>, nodes: set<Node>) {
    && (forall k | 0 <= k < |chain| :: chain[k] in nodes && chain[k].clientSocketfd == chain[k].client.socketfd)
    && forall j, k | 0 <= j < k < |chain| :: chain[j] != chain[k]
  }

  function Without<T>(s: seq<T>, k: nat): seq<T>
    requires k < |s|
  {
    s[..k] + s[k + 1..]
  }

  /* ----- The clients, the latest first ----- */

  // The client found for a descriptor: the latest that has it.
  function Lookup(clients: seq<Client>, fd: int): Client? {
    if clients == [] then null
    else if clients[0].socketfd == fd then clients[0]
    else Lookup(clients[1..], fd)
  }

  function Removed(clients: seq<Client>, client: Client): seq<Client> {
    if clients == [] then []
    else if clients[0] == client then clients[1..]
    else [clients[0]] + Removed(clients[1..], client)
  }

  function Bucket(clients: seq<Client>, b: int): seq<Client> {
    if clients == [] then []
    else (if clients[0].socketfd % HASHTABLE_SIZE == b then [clients[0]] else []) + Bucket(clients[1..], b)
  }

  // Each list holds the clients of its bucket, in this order.
  ghost predicate Refines(chains: seq<seq<Node>>, nodes: set<Node>, clients: seq<Client>) {
    && |chains| == HASHTABLE_SIZE
    && forall b | 0 <= b < HASHTABLE_SIZE :: ChainOk(chains[b], nodes) && ClientsOf(chains[b]) == Bucket(clients, b)
  }

  lemma {:induction false} BucketAt(clients: seq<Client>, b: int)
    ensures forall k | 0 <= k < |Bucket(clients, b)| :: Bucket(clients, b)[k].socketfd % HASHTABLE_SIZE == b
  {
    if clients != [] {
      BucketAt(clients[1..], b);
    }
  }

  lemma {:induction false} LookupInBucket(clients: seq<Client>, fd: int)
    ensures Lookup(clients, fd) == Lookup(Bucket(clients, fd % HASHTABLE_SIZE), fd)
  {
    if clients != [] {
      LookupInBucket(clients[1..], fd);
      if clients[0].socketfd % HASHTABLE_SIZE == fd % HASHTABLE_SIZE {
        assert Bucket(clients, fd % HASHTABLE_SIZE)[1..] == Bucket(clients[1..], fd % HASHTABLE_SIZE);
      } else {
        assert Bucket(clients, fd % HASHTABLE_SIZE) == Bucket(clients[1..], fd % HASHTABLE_SIZE);
      }
    }
  }

  lemma {:induction false} LookupIs(clients: seq<Client>, fd: int, k: nat)
    requires k <= |clients| && forall j | 0 <= j < k :: clients[j].socketfd != fd
    requires k < |clients| ==> clients[k].socketfd == fd
    ensures Lookup(clients, fd) == if k < |clients| then clients[k] else null
  {
    if k > 0 {
      LookupIs(clients[1..], fd, k - 1);
    }
  }

  lemma {:induction false} RemovedBucket(clients: seq<Client>, client: Client, b: int)
    ensures Bucket(Removed(clients, client), b)
         == if client.socketfd % HASHTABLE_SIZE == b then Removed(Bucket(clients, b), client) else Bucket(clients, b)
  {
    if clients != [] {
      RemovedBucket(clients[1..], client, b);
      var first, rest := clients[0], Bucket(clients[1..], b);
      if first == client {
        assert [] + rest == rest && ([first] + rest)[1..] == rest;
      } else {
        assert Removed(clients, client)[1..] == Removed(clients[1..], client);
        assert first.socketfd % HASHTABLE_SIZE == b ==> Bucket(clients, b)[1..] == rest;
        assert first.socketfd % HASHTABLE_SIZE != b ==> Bucket(clients, b) == rest;
      }
    }
  }

  lemma {:induction false} RemovedIs(clients: seq<Client>, client: Client, k: nat)
    requires k <= |clients| && forall j | 0 <= j < k :: clients[j] != client
    requires k < |clients| ==> clients[k] == client
    ensures Removed(clients, client) == if k < |clients| then Without(clients, k) else clients
  {
    if k > 0 {
      RemovedIs(clients[1..], client, k - 1);
      if k < |clients| {
        WithoutLater(clients, k);
      } else {
        assert [clients[0]] + clients[1..] == clients;
      }
    }
  }

  lemma WithoutLater<T>(s: seq<T>, k: nat)
    requires 0 < k < |s|
    ensures [s[0]] + Without(s[1..], k - 1) == Without(s, k)
  {
  }

  lemma {:induction false} RemovedNothing(clients: seq<Client>, client: Client)
    requires client !in Bucket(clients, client.socketfd % HASHTABLE_SIZE)
    ensures Removed(clients, client) == clients
  {
    if clients != [] {
      var b := client.socketfd % HASHTABLE_SIZE;
      assert forall c | c in Bucket(clients[1..], b) :: c in Bucket(clients, b);
      assert clients[0].socketfd % HASHTABLE_SIZE == b ==> clients[0] in Bucket(clients, b);
      RemovedNothing(clients[1..], client);
      assert [clients[0]] + clients[1..] == clients;
    }
  }

  // Other descriptors are not affected by a removal.
  lemma {:induction false} RemovedKeepsOthers(clients: seq<Client>, client: Client, fd: int)
    requires fd != client.socketfd
    ensures Lookup(Removed(clients, client), fd) == Lookup(clients, fd)
  {
    if clients != [] && clients[0] != client {
      RemovedKeepsOthers(clients[1..], client, fd);
      assert Removed(clients, client)[1..] == Removed(clients[1..], client);
    }
  }

  // A second client with the same descriptor hides the first until it is
  // removed.
  lemma HiddenUntilRemoved(clients: seq<Client>, client: Client)
    ensures Lookup([client] + clients, client.socketfd) == client
    ensures Removed([client] + clients, client) == clients
  {
    assert ([client] + clients)[1..] == clients;
  }

  /* ----- Runs ----- */

  datatype Operation = Init(client: Client) | Delete(client: Client)

  function RunAll(operations: seq<Operation>): seq<Client> {
    if operations == [] then []
    else
      var n := |operations| - 1;
      var clients := RunAll(operations[..n]);
      match operations[n]
      case Init(client) => [client] + clients
      case Delete(client) => Removed(clients, client)
  }

  // The finite map a table should be.
  function MapOf(operations: seq<Operation>): map<int, Client> {
    if operations == [] then map[]
    else
      var n := |operations| - 1;
      var m := MapOf(operations[..n]);
      match operations[n]
      case Init(client) => m[client.socketfd := client]
      case Delete(client) => if client in m.Values then m - {client.socketfd} else m
  }

  // A descriptor is given to a new client only when no other has it.
  ghost predicate NoReuse(operations: seq<Operation>) {
    forall n | 0 <= n < |operations| :: operations[n].Init? ==> operations[n].client.socketfd !in MapOf(operations[..n])
  }

  ghost predicate IsMap(clients: seq<Client>, m: map<int, Client>) {
    && (forall j, k | 0 <= j < k < |clients| :: clients[j].socketfd != clients[k].socketfd)
    && (forall fd | fd in m :: m[fd].socketfd == fd)
    && forall fd :: Lookup(clients, fd) == if fd in m then m[fd] else null
  }

  lemma {:induction false} LookupFinds(clients: seq<Client>, client: Client)
    requires client in clients
    ensures Lookup(clients, client.socketfd) != null
  {
    if clients[0] != client {
      LookupFinds(clients[1..], client);
    }
  }

  lemma {:induction false} LookupMember(clients: seq<Client>, fd: int)
    ensures var c := Lookup(clients, fd); c != null ==> c in clients && c.socketfd == fd
  {
    if clients != [] {
      LookupMember(clients[1..], fd);
    }
  }

  lemma InitIsMap(clients: seq<Client>, m: map<int, Client>, client: Client)
    requires IsMap(clients, m) && client.socketfd !in m
    ensures IsMap([client] + clients, m[client.socketfd := client])
  {
    var longer := [client] + clients;
    assert longer[1..] == clients;
    forall c | c in clients ensures c.socketfd != client.socketfd {
      LookupFinds(clients, c);
    }
  }

  lemma {:induction false} RemovedDistinct(clients: seq<Client>, client: Client)
    requires forall j, k | 0 <= j < k < |clients| :: clients[j].socketfd != clients[k].socketfd
    ensures var rest := Removed(clients, client);
      && (forall j, k | 0 <= j < k < |rest| :: rest[j].socketfd != rest[k].socketfd)
      && (forall c | c in rest :: c in clients)
      && (client in clients ==> forall c | c in rest :: c.socketfd != client.socketfd)
  {
    if clients != [] {
      RemovedDistinct(clients[1..], client);
      assert forall c | c in clients[1..] :: c in clients && c.socketfd != clients[0].socketfd;
    }
  }

  lemma DeleteIsMap(clients: seq<Client>, m: map<int, Client>, client: Client)
    requires IsMap(clients, m)
    ensures IsMap(Removed(clients, client), if client in m.Values then m - {client.socketfd} else m)
  {
    var rest := Removed(clients, client);
    RemovedDistinct(clients, client);
    LookupMember(clients, client.socketfd);
    LookupMember(rest, client.socketfd);
    if client in clients {
      LookupFinds(clients, client);
      assert Lookup(clients, client.socketfd) == client;
    } else {
      forall fd | fd in m ensures m[fd] in clients {
        LookupMember(clients, fd);
      }
      RemovedIs(clients, client, |clients|);
    }
    forall fd | fd != client.socketfd ensures Lookup(rest, fd) == Lookup(clients, fd) {
      RemovedKeepsOthers(clients, client, fd);
    }
  }

  // After any run in which no descriptor is in use twice, looking up any
  // descriptor gives what the finite map has for it.
  lemma {:induction false} RunIsMap(operations: seq<Operation>)
    requires NoReuse(operations)
    ensures IsMap(RunAll(operations), MapOf(operations))
  {
    if operations != [] {
      var n := |operations| - 1;
      var earlier := operations[..n];
      assert forall i | 0 <= i < n :: earlier[i] == operations[i] && earlier[..i] == operations[..i];
      RunIsMap(earlier);
      match operations[n]
      case Init(client) => InitIsMap(RunAll(earlier), MapOf(earlier), client);
      case Delete(client) => DeleteIsMap(RunAll(earlier), MapOf(earlier), client);
    }
  }

  /* ----- Changes to the lists ----- */

  lemma PushRefines(chains: seq<seq<Node>>, nodes: set<Node>, clients: seq<Client>, node: Node)
    requires Refines(chains, nodes, clients) && node !in nodes && node.client.socketfd == node.clientSocketfd
    ensures var b := node.clientSocketfd % HASHTABLE_SIZE;
      Refines(chains[b := [node] + chains[b]], nodes + {node}, [node.client] + clients)
  {
    var index := node.clientSocketfd % HASHTABLE_SIZE;
    var pushed, longer := chains[index := [node] + chains[index]], [node.client] + clients;
    assert longer[1..] == clients;
    forall b | 0 <= b < HASHTABLE_SIZE
      ensures ChainOk(pushed[b], nodes + {node}) && ClientsOf(pushed[b]) == Bucket(longer, b)
    {
      assert ChainOk(chains[b], nodes) && ClientsOf(chains[b]) == Bucket(clients, b);
    }
  }

  lemma ListWithout(chain: seq<Node>, nodes: set<Node>, k: nat)
    requires ChainOk(chain, nodes) && k < |chain| && forall j | 0 <= j < k :: chain[j].client != chain[k].client
    ensures ChainOk(Without(chain, k), nodes)
    ensures ClientsOf(Without(chain, k)) == Removed(ClientsOf(chain), chain[k].client)
  {
    var rest := Without(chain, k);
    assert forall j | 0 <= j < |rest| :: rest[j] == chain[if j < k then j else j + 1];
    RemovedIs(ClientsOf(chain), chain[k].client, k);
    assert ClientsOf(rest) == Without(ClientsOf(chain), k);
  }

  lemma RemoveRefines(chains: seq<seq<Node>>, nodes: set<Node>, clients: seq<Client>, b: nat, k: nat)
    requires Refines(chains, nodes, clients) && b < HASHTABLE_SIZE && k < |chains[b]|
    requires forall j | 0 <= j < k :: chains[b][j].client != chains[b][k].client
    ensures Refines(chains[b := Without(chains[b], k)], nodes, Removed(clients, chains[b][k].client))
  {
    var client := chains[b][k].client;
    ListWithout(chains[b], nodes, k);
    BucketAt(clients, b);
    assert Bucket(clients, b)[k] == client;
    hide Bucket, Removed, ChainOk, ClientsOf;
    forall i | 0 <= i < HASHTABLE_SIZE ensures ChainOk(chains[i], nodes) && ClientsOf(chains[i]) == Bucket(clients, i)
      ensures Bucket(Removed(clients, client), i) == if i == b then Removed(Bucket(clients, b), client) else Bucket(clients, i)
    {
      RemovedBucket(clients, client, i);
    }
  }

  // Takes current out of the list behind prev.
  method Relink(prev: Node, current: Node, ghost head: Node?, ghost chain: seq<Node>, ghost k: nat)
    requires Linked(head, chain) && 0 < k < |chain| && prev == chain[k - 1] && current == chain[k]
    requires forall i, j | 0 <= i < j < |chain| :: chain[i] != chain[j]
    modifies prev
    ensures Linked(head, Without(chain, k))
  {
    assert forall j | 0 <= j < |chain| :: chain[j].next == After(chain, j);
    prev.next := current.next;
    ghost var rest := Without(chain, k);
    forall j | 0 <= j < |rest| ensures rest[j].next == After(rest, j) {
      var i := if j < k then j else j + 1;
      assert rest[j] == chain[i] && old(chain[i].next) == After(chain, i);
    }
  }

  class Table {
    const buckets: array<Node?>
    // The clients this table stands for, and its lists.
    ghost var clients: seq<Client>
    ghost var chains: seq<seq<Node>>
    ghost var nodes: set<Node>

    ghost predicate Valid()
      reads this, buckets, nodes
    {
      && buckets.Length == HASHTABLE_SIZE == 1024 && Refines(chains, nodes, clients)
      && (forall b | 0 <= b < HASHTABLE_SIZE :: Linked(buckets[b], chains[b]))
    }

    constructor ()
      ensures Valid() && fresh(buckets) && nodes == {} && clients == []
    {
      buckets := new Node?[HASHTABLE_SIZE](_ => null);
      chains := seq(HASHTABLE_SIZE, _ => []);
      nodes, clients := {}, [];
    }

    method InitClient(socketfd: nat, host: Protocol.Host) returns (client: Client)
      requires Valid()
      modifies this, buckets
      ensures Valid() && fresh(client) && fresh(nodes - old(nodes))
      ensures client.socketfd == socketfd && client.host == host
      ensures client.Valid() && ClientState.SessionOf(client.View()) == Protocol.INITIAL
      ensures clients == [client] + old(clients)
    {
      hide Client.View, ClientState.SessionOf, ClientState.Ok, Refines, Linked;
      client := new Client(socketfd, host);
      Push(client);
    }

    method Push(client: Client)
      requires Valid() && client.socketfd >= 0
      modifies this, buckets
      ensures Valid() && fresh(nodes - old(nodes))
      ensures clients == [client] + old(clients)
    {
      var index := client.socketfd % HASHTABLE_SIZE;
      var node := new Node(client, buckets[index]);
      assert |chains| == HASHTABLE_SIZE && Linked(node, [node] + chains[index]);
      hide Refines, Linked;
      buckets[index] := node;
      forall b | 0 <= b < HASHTABLE_SIZE && b != index ensures Linked(buckets[b], chains[b]) {
        assert buckets[b] == old(buckets[b]);
      }
      Remember(index, node);
    }

    // Takes the new first node of a list into the ghost state.
    ghost method Remember(b: nat, node: Node)
      requires buckets.Length == HASHTABLE_SIZE && Refines(chains, nodes, clients)
      requires node !in nodes && node.client.socketfd == node.clientSocketfd
      requires b == node.clientSocketfd % HASHTABLE_SIZE && Linked(buckets[b], [node] + chains[b])
      requires forall i | 0 <= i < HASHTABLE_SIZE && i != b :: Linked(buckets[i], chains[i])
      modifies `clients, `chains, `nodes
      ensures Valid() && nodes == old(nodes) + {node}
      ensures clients == [node.client] + old(clients)
    {
      PushRefines(chains, nodes, clients, node);
      assert |chains| == HASHTABLE_SIZE;
      hide Refines, Linked;
      nodes := nodes + {node};
      chains := chains[b := [node] + chains[b]];
      clients := [node.client] + clients;
    }

    method GetClient(socketfd: nat) returns (client: Client?)
      requires Valid()
      ensures client == Lookup(clients, socketfd)
    {
      var index := socketfd % HASHTABLE_SIZE;
      ghost var chain, k := chains[index], 0;
      var node := buckets[index];
      assert ChainOk(chain, nodes) && ClientsOf(chain) == Bucket(clients, index);
      LookupInBucket(clients, socketfd);
      while node != null
        invariant k <= |chain| && node == if k < |chain| then chain[k] else null
        invariant forall j | 0 <= j < k :: chain[j].clientSocketfd != socketfd
        decreases |chain| - k
      {
        if node.clientSocketfd == socketfd {
          break;
        }
        assert Linked(buckets[index], chain) && chain[k].next == After(chain, k);
        node := node.next;
        k := k + 1;
      }
      LookupIs(ClientsOf(chain), socketfd, k);
      if node == null {
        return null;
      }
      return node.client;
    }

    // Takes the node found at position k of the list out of the ghost state.
    ghost method Forget(b: nat, k: nat)
      requires buckets.Length == HASHTABLE_SIZE && Refines(chains, nodes, clients)
      requires b < HASHTABLE_SIZE && k < |chains[b]|
      requires forall j | 0 <= j < k :: chains[b][j].client != chains[b][k].client
      requires Linked(buckets[b], Without(chains[b], k))
      requires forall i | 0 <= i < HASHTABLE_SIZE && i != b :: Linked(buckets[i], chains[i])
      modifies `clients, `chains
      ensures Valid() && clients == Removed(old(clients), old(chains)[b][k].client)
    {
      RemoveRefines(chains, nodes, clients, b, k);
      assert |chains| == HASHTABLE_SIZE;
      hide Refines, Linked;
      clients := Removed(clients, chains[b][k].client);
      chains := chains[b := Without(chains[b], k)];
    }

    method UnlinkFirst(b: nat)
      requires Valid() && b < HASHTABLE_SIZE && chains[b] != []
      modifies this, buckets
      ensures Valid() && nodes == old(nodes)
      ensures clients == Removed(old(clients), old(chains)[b][0].client)
    {
      ghost var chain := chains[b];
      assert chain[0].next == After(chain, 0);
      forall i | 0 <= i < HASHTABLE_SIZE && i != b ensures Linked(buckets[i], chains[i]) {
      }
      buckets[b] := buckets[b].next;
      ghost var rest := Without(chain, 0);
      forall j | 0 <= j < |rest| ensures rest[j].next == After(rest, j) {
        assert rest[j] == chain[j + 1] && chain[j + 1].next == After(chain, j + 1);
      }
      Forget(b, 0);
    }

    method Unlink(ghost b: nat, ghost k: nat, prev: Node, current: Node)
      requires Valid() && b < HASHTABLE_SIZE && 0 < k < |chains[b]|
      requires prev == chains[b][k - 1] && current == chains[b][k]
      requires forall j | 0 <= j < k :: chains[b][j].client != current.client
      modifies this, nodes
      ensures Valid() && nodes == old(nodes)
      ensures clients == Removed(old(clients), current.client)
    {
      assert ChainOk(chains[b], nodes) && prev in nodes;
      OthersApart(b, k - 1);
      Relink(prev, current, buckets[b], chains[b], k);
      hide Refines, ChainOk;
      forall i | 0 <= i < HASHTABLE_SIZE && i != b ensures Linked(buckets[i], chains[i]) {
        assert old(Linked(buckets[i], chains[i])) && prev !in chains[i];
      }
      Forget(b, k);
    }

    // No node is in two buckets.
    lemma OthersApart(b: nat, k: nat)
      requires Refines(chains, nodes, clients) && b < HASHTABLE_SIZE && k < |chains[b]|
      ensures forall i | 0 <= i < HASHTABLE_SIZE && i != b :: chains[b][k] !in chains[i]
    {
      BucketAt(clients, b);
      assert ClientsOf(chains[b])[k] == chains[b][k].client;
      forall i, j | 0 <= i < HASHTABLE_SIZE && i != b && 0 <= j < |chains[i]| ensures chains[i][j] != chains[b][k] {
        BucketAt(clients, i);
        assert ClientsOf(chains[i])[j] == chains[i][j].client;
      }
    }

    // The client is not in its bucket.
    lemma NotListed(client: Client)
      requires Refines(chains, nodes, clients)
      requires var chain := chains[client.socketfd % HASHTABLE_SIZE];
        forall k | 0 <= k < |chain| :: chain[k].client != client
      ensures Removed(clients, client) == clients
    {
      var chain := chains[client.socketfd % HASHTABLE_SIZE];
      assert forall k | 0 <= k < |chain| :: ClientsOf(chain)[k] == chain[k].client;
      RemovedNothing(clients, client);
    }

    // Removes exactly this client, if it is in the table.
    method DeleteClient(client: Client)
      requires Valid() && client.socketfd >= 0
      modifies this, buckets, nodes
      ensures Valid() && nodes == old(nodes)
      ensures clients == Removed(old(clients), client)
    {
      var index := client.socketfd % HASHTABLE_SIZE;
      ghost var chain := chains[index];
      var prev := buckets[index];
      if prev == null {
        NotListed(client);
        return;
      }
      if prev.client == client {
        UnlinkFirst(index);
        return;
      }
      assert chain[0].next == After(chain, 0);
      var current := prev.next;
      ghost var k := 1;
      while current != null
        invariant 1 <= k <= |chain| && prev == chain[k - 1]
        invariant current == if k < |chain| then chain[k] else null
        invariant forall j | 0 <= j < k :: chain[j].client != client
        decreases |chain| - k
      {
        assert chain[k].next == After(chain, k);
        if current.client == client {
          Unlink(index, k, prev, current);
          return;
        }
        prev := current;
        current := current.next;
        k := k + 1;
      }
      NotListed(client);
    }
  }
}