/**
 The table as it lives in memory: one node per access point, linked into a
 list whose head's prev points at the tail, and into the chain of its hash
 bucket. Every operation is proved against the value-level table of ApTable.
 */
module ApList {
  import opened Bytes
  import opened ApTable

  const BUCKETS: nat := 256

  /** STA_HASH: the last byte of the address. */
  function Hash(addr: Addr): nat { addr[5] }

  /** The fields a beacon refreshes. */
  datatype Info = Info(rates: seq<byte>, erp: Option<byte>, channel: int, ht: bool, lastBeacon: Time)

  function RecordOf(addr: Addr, i: Info): Ap {
    Ap(addr, i.rates, i.erp, i.channel, i.ht, i.lastBeacon)
  }

  function InfoOf(ap: Ap): Info {
    Info(ap.rates, ap.erp, ap.channel, ap.ht, ap.lastBeacon)
  }

  /** A node: the three links, the address, and what the last beacon said. */
  class ApInfo {
    var next: ApInfo?
    var prev: ApInfo?
    var hnext: ApInfo?
    const addr: Addr
    var info: Info

    /** os_zalloc and the copied address */
    constructor (addr: Addr)
      ensures this.addr == addr && RecordOf(addr, info) == Blank(addr)
    {
      this.addr := addr;
      next, prev, hnext := null, null, null;
      info := InfoOf(Blank(addr));
    }
  }

  ghost predicate UniqueAddrs(ns: seq<ApInfo>) {
    forall i, j {:trigger ns[i].addr, ns[j].addr} :: 0 <= i < j < |ns| ==> ns[i].addr != ns[j].addr
  }

  lemma NoneTwice(ns: seq<ApInfo>)
    requires UniqueAddrs(ns)
    ensures forall i, j :: 0 <= i < j < |ns| ==> ns[i] != ns[j]
  {
    forall i, j | 0 <= i < j < |ns| ensures ns[i] != ns[j] {
      assert ns[i].addr != ns[j].addr;
    }
  }

  lemma OnlyAt(ns: seq<ApInfo>, i: nat)
    requires UniqueAddrs(ns) && i < |ns|
    ensures forall k :: 0 <= k < |ns| && k != i ==> ns[k] != ns[i]
  {
    NoneTwice(ns);
  }

  lemma UniqueAfterDel(ns: seq<ApInfo>, i: nat)
    requires UniqueAddrs(ns) && i < |ns|
    ensures UniqueAddrs(Removed(ns, i))
  {
    var r := Removed(ns, i);
    assert forall p :: 0 <= p < |r| ==> r[p] == ns[if p < i then p else p + 1];
  }

  lemma UniqueAfterAdd(ns: seq<ApInfo>, ap: ApInfo)
    requires UniqueAddrs(ns) && forall n :: n in ns ==> n.addr != ap.addr
    ensures UniqueAddrs([ap] + ns)
  {
    var r := [ap] + ns;
    assert forall p :: 1 <= p < |r| ==> r[p] == ns[p - 1] && ns[p - 1] in ns;
  }

  predicate HeadOf(head: ApInfo?, ns: seq<ApInfo>) {
    head == if ns == [] then null else ns[0]
  }

  /** next leads through ns, prev back, and the first prev to the last. */
  ghost predicate Threaded(ns: seq<ApInfo>)
    reads ns`next, ns`prev
  {
    && (ns != [] ==> ns[|ns| - 1].next == null && ns[0].prev == ns[|ns| - 1])
    && (forall i {:trigger ns[i].next} :: 0 <= i < |ns| - 1 ==> ns[i].next == ns[i + 1])
    && (forall i {:trigger ns[i].prev} :: 1 <= i < |ns| ==> ns[i].prev == ns[i - 1])
  }

  ghost predicate Linked(head: ApInfo?, ns: seq<ApInfo>)
    reads ns`next, ns`prev
  {
    HeadOf(head, ns) && Threaded(ns)
  }

  /** hnext leads through ns. */
  ghost predicate HThreaded(ns: seq<ApInfo>)
    reads ns`hnext
  {
    && (ns != [] ==> ns[|ns| - 1].hnext == null)
    && (forall i {:trigger ns[i].hnext} :: 0 <= i < |ns| - 1 ==> ns[i].hnext == ns[i + 1])
  }

  ghost predicate Chained(head: ApInfo?, ns: seq<ApInfo>)
    reads ns`hnext
  {
    HeadOf(head, ns) && HThreaded(ns)
  }

  /** t is what the nodes ns hold. */
  ghost predicate Holds(ns: seq<ApInfo>, t: Table)
    reads ns`info
  {
    |t| == |ns| && forall i :: 0 <= i < |ns| ==> t[i] == RecordOf(ns[i].addr, ns[i].info)
  }

  twostate lemma HoldsAfterDel(ns: seq<ApInfo>, new t: Table, new i: nat)
    requires old(Holds(ns, t)) && i < |ns|
    requires forall k :: 0 <= k < |ns| ==> ns[k].info == old(ns[k].info)
    ensures Holds(Removed(ns, i), Removed(t, i))
  {
    var r := Removed(ns, i);
    assert forall p :: 0 <= p < |r| ==> r[p] == ns[if p < i then p else p + 1];
  }

  twostate lemma HoldsAfterAdd(ns: seq<ApInfo>, new t: Table, new ap: ApInfo)
    requires old(Holds(ns, t))
    requires forall k :: 0 <= k < |ns| ==> ns[k].info == old(ns[k].info)
    ensures Holds([ap] + ns, [RecordOf(ap.addr, ap.info)] + t)
  {
    var r := [ap] + ns;
    assert forall p :: 1 <= p < |r| ==> r[p] == ns[p - 1];
  }

  function Removed<T>(s: seq<T>, i: nat): (r: seq<T>)
    requires i < |s|
    ensures |r| == |s| - 1
  {
    s[..i] + s[i + 1..]
  }

  /** A chain none of whose nodes changed its hnext is still a chain. */
  twostate lemma HThreadedStill(ns: seq<ApInfo>)
    requires old(HThreaded(ns))
    requires forall i :: 0 <= i < |ns| ==> ns[i].hnext == old(ns[i].hnext)
    ensures HThreaded(ns)
  {}

  /** The loop of ap_get_ap over one bucket. */
  method FindInChain(head: ApInfo?, addr: Addr, ghost chain: seq<ApInfo>) returns (s: ApInfo?)
    requires Chained(head, chain)
    ensures s != null ==> s in chain && s.addr == addr
    ensures s == null ==> forall q :: 0 <= q < |chain| ==> chain[q].addr != addr
  {
    ghost var k := 0;
    s := head;
    while s != null && s.addr != addr
      invariant 0 <= k <= |chain| && (k < |chain| ==> s == chain[k]) && (k == |chain| ==> s == null)
      invariant forall q :: 0 <= q < k ==> chain[q].addr != addr
      decreases |chain| - k
    {
      assert s == chain[k];
      s := s.hnext;
      k := k + 1;
    }
  }

  /** ap_ap_list_add on the list ns; returns the new head. */
  method ListAdd(head: ApInfo?, ap: ApInfo, ghost ns: seq<ApInfo>) returns (head': ApInfo)
    requires Linked(head, ns) && UniqueAddrs(ns) && ap !in ns
    modifies ap`next, ap`prev, ns`prev
    ensures Linked(head', [ap] + ns)
    ensures ap.info == old(ap.info)
    ensures forall k :: 0 <= k < |ns| ==> ns[k].info == old(ns[k].info) && ns[k].hnext == old(ns[k].hnext)
  {
    NoneTwice(ns);
    if head != null {
      ap.prev := head.prev;
      head.prev := ap;
    } else {
      ap.prev := ap;
    }
    ap.next := head;
    head' := ap;
    ghost var r := [ap] + ns;
    assert forall i :: 1 <= i < |r| ==> r[i] == ns[i - 1];
  }

  /** ap_ap_list_del of the i-th node of the list ns; returns the new head. */
  method ListDel(head: ApInfo?, ap: ApInfo, ghost ns: seq<ApInfo>, ghost i: nat) returns (head': ApInfo?)
    requires Linked(head, ns) && UniqueAddrs(ns) && i < |ns| && ns[i] == ap
    modifies ns`next, ns`prev
    ensures Linked(head', Removed(ns, i))
    ensures forall k :: 0 <= k < |ns| ==> ns[k].info == old(ns[k].info) && ns[k].hnext == old(ns[k].hnext)
  {
    NoneTwice(ns);
    head' := head;
    if head == ap {
      assert i == 0;
      head' := ap.next;
    } else {
      assert ap.prev == ns[i - 1];
      ap.prev.next := ap.next;
    }
    if ap.next != null {
      assert ap.next == ns[i + 1];
      ap.next.prev := ap.prev;
    } else if head' != null {
      head'.prev := ap.prev;
    }
    ghost var r := Removed(ns, i);
    assert forall k :: 0 <= k < |r| ==> r[k] == if k < i then ns[k] else ns[k + 1];
  }

  /** ap_ap_hash_add to the bucket chain; returns the new bucket head. */
  method ChainAdd(head: ApInfo?, ap: ApInfo, ghost chain: seq<ApInfo>) returns (head': ApInfo)
    requires Chained(head, chain) && UniqueAddrs(chain) && ap !in chain
    modifies ap`hnext
    ensures Chained(head', [ap] + chain)
  {
    ap.hnext := head;
    head' := ap;
    ghost var r := [ap] + chain;
    assert forall i :: 1 <= i < |r| ==> r[i] == chain[i - 1];
  }

  /** The search loop of ap_ap_hash_del, from a bucket head that is another node. */
  method BeforeInChain(head: ApInfo, ap: ApInfo, ghost chain: seq<ApInfo>, ghost k: nat) returns (s: ApInfo)
    requires Chained(head, chain) && 1 <= k < |chain| && chain[k] == ap
    requires forall q :: 0 <= q < |chain| && q != k ==> chain[q].addr != ap.addr
    ensures s == chain[k - 1] && s.hnext == ap
  {
    s := head;
    ghost var q := 0;
    while s.hnext != null && s.hnext.addr != ap.addr
      invariant 0 <= q < k && s == chain[q]
      decreases k - q
    {
      assert s.hnext == chain[q + 1];
      s := s.hnext;
      q := q + 1;
    }
    assert s.hnext == chain[q + 1];
  }

  lemma FirstRemoved(head: ApInfo, chain: seq<ApInfo>)
    requires Chained(head, chain) && chain != []
    ensures Chained(head.hnext, Removed(chain, 0))
  {
    var r := Removed(chain, 0);
    assert forall q :: 0 <= q < |r| ==> r[q] == chain[q + 1];
  }

  /** Pointing past node k takes it out of the chain. */
  twostate lemma Bypassed(chain: seq<ApInfo>, new k: nat)
    requires old(HThreaded(chain)) && 1 <= k < |chain| && chain[k - 1].hnext == old(chain[k].hnext)
    requires forall q :: 0 <= q < |chain| && q != k - 1 ==> chain[q].hnext == old(chain[q].hnext)
    ensures HThreaded(Removed(chain, k)) && Removed(chain, k)[0] == chain[0]
  {
    var r := Removed(chain, k);
    forall q | 0 <= q < |r| ensures r[q] == if q < k then chain[q] else chain[q + 1] {}
    forall q | 0 <= q < |r| - 1 ensures r[q].hnext == r[q + 1] {
      if q == k - 1 {
        assert old(chain[k].hnext) == chain[k + 1];
      } else {
        assert chain[if q < k then q else q + 1].hnext == chain[if q < k then q + 1 else q + 2];
      }
    }
  }

  /** ap_ap_hash_del of the k-th node of the bucket chain; returns the new bucket head. */
  method ChainDel(head: ApInfo?, ap: ApInfo, ghost chain: seq<ApInfo>, ghost k: nat) returns (head': ApInfo?)
    requires Chained(head, chain) && UniqueAddrs(chain) && k < |chain| && chain[k] == ap
    modifies chain`hnext
    ensures Chained(head', Removed(chain, k))
  {
    NoneTwice(chain);
    assert forall q :: 0 <= q < |chain| && q != k ==> chain[q].addr != ap.addr;
    var s := head;
    if s == null { return null; }
    if s.addr == ap.addr {
      FirstRemoved(head, chain);
      return s.hnext;
    }
    s := BeforeInChain(s, ap, chain, k);
    if s.hnext != null {
      s.hnext := s.hnext.hnext;
    }
    head' := head;
    Bypassed(chain, k);
  }

  lemma RemovedSubset<T>(s: seq<T>, i: nat)
    requires i < |s|
    ensures forall k :: 0 <= k < |s| - 1 ==> Removed(s, i)[k] == s[if k < i then k else k + 1]
  {}

  lemma RemoveLast<T>(s: seq<T>)
    requires s != []
    ensures Removed(s, |s| - 1) == s[..|s| - 1]
  {}

  /** Each chain holds exactly the listed nodes that hash to it. */
  ghost predicate IndexedBy(nodes: seq<ApInfo>, chains: seq<seq<ApInfo>>) {
    && |chains| == BUCKETS
    && (forall h, k :: 0 <= h < BUCKETS && 0 <= k < |chains[h]| ==>
          chains[h][k] in nodes && Hash(chains[h][k].addr) == h)
    && (forall n {:trigger InItsChain(n, chains)} :: n in nodes ==> InItsChain(n, chains))
  }

  ghost predicate InItsChain(n: ApInfo, chains: seq<seq<ApInfo>>) {
    |chains| == BUCKETS && n in chains[Hash(n.addr)]
  }

  lemma RemovedMembers<T>(s: seq<T>, i: nat)
    requires i < |s| && forall p, q :: 0 <= p < q < |s| ==> s[p] != s[q]
    ensures forall x :: x in Removed(s, i) <==> x in s && x != s[i]
  {
    var r := Removed(s, i);
    forall x | x in s && x != s[i] ensures x in r {
      var p :| 0 <= p < |s| && s[p] == x;
      assert r[if p < i then p else p - 1] == x;
    }
    forall x | x in r ensures x in s && x != s[i] {
      var p :| 0 <= p < |r| && r[p] == x;
      assert x == s[if p < i then p else p + 1];
    }
  }

  lemma IndexedAfterDel(nodes: seq<ApInfo>, chains: seq<seq<ApInfo>>, i: nat, k: nat)
    requires IndexedBy(nodes, chains) && UniqueAddrs(nodes) && i < |nodes|
    requires var chain := chains[Hash(nodes[i].addr)]; UniqueAddrs(chain) && k < |chain| && chain[k] == nodes[i]
    ensures var h := Hash(nodes[i].addr);
      IndexedBy(Removed(nodes, i), chains[h := Removed(chains[h], k)])
  {
    var h := Hash(nodes[i].addr);
    NoneTwice(nodes);
    NoneTwice(chains[h]);
    RemovedMembers(nodes, i);
    RemovedMembers(chains[h], k);
    var chains' := chains[h := Removed(chains[h], k)];
    forall n | n in Removed(nodes, i) ensures InItsChain(n, chains') {
      assert InItsChain(n, chains);
    }
    forall g, q | 0 <= g < BUCKETS && 0 <= q < |chains'[g]|
      ensures chains'[g][q] in Removed(nodes, i) && Hash(chains'[g][q].addr) == g
    {
      assert g == h ==> chains'[g][q] in Removed(chains[h], k);
      assert chains'[g][q] in chains[g];
    }
  }

  lemma IndexedAfterAdd(nodes: seq<ApInfo>, chains: seq<seq<ApInfo>>, ap: ApInfo)
    requires IndexedBy(nodes, chains)
    ensures var h := Hash(ap.addr); IndexedBy([ap] + nodes, chains[h := [ap] + chains[h]])
  {
    var h := Hash(ap.addr);
    var chains' := chains[h := [ap] + chains[h]];
    forall n | n in [ap] + nodes ensures InItsChain(n, chains') {
      assert n != ap ==> InItsChain(n, chains);
    }
    forall g, q | 0 <= g < BUCKETS && 0 <= q < |chains'[g]|
      ensures chains'[g][q] in [ap] + nodes && Hash(chains'[g][q].addr) == g
    {
      assert chains'[g][q] == ap || chains'[g][q] in chains[g];
    }
  }

  /** The assignments ap_list_process_beacon makes to the record of the sender. */
  method Updated(addr: Addr, before: Info, b: Beacon, now: Time) returns (info: Info)
    ensures RecordOf(addr, info) == Refresh(RecordOf(addr, before), b, now)
  {
    info := before.(rates := MergeRates(b.supp, b.ext));
    info := info.(erp := b.erp);
    if b.ds.Some? {
      info := info.(channel := b.ds.value);
    } else if b.htOper.Some? {
      info := info.(channel := b.htOper.value);
    } else if b.rx.Some? {
      info := info.(channel := b.rx.value);
    }
    info := info.(ht := b.ht, lastBeacon := now);
  }

  class ApIface {
    var apList: ApInfo?
    var apHash: seq<ApInfo?>             // one chain head per bucket
    var numAp: int
    var olbc: bool
    var olbcHt: bool
    const conf: Conf
    ghost var nodes: seq<ApInfo>         // the list, most recently heard first
    ghost var chains: seq<seq<ApInfo>>   // the bucket chains
    ghost var table: Table               // the records of nodes

    ghost predicate ListOk()
      reads this`apList, this`nodes, nodes`next, nodes`prev
    {
      Linked(apList, nodes) && UniqueAddrs(nodes)
    }

    ghost predicate HashShape()
      reads this`apHash, this`nodes, this`chains
    {
      && IndexedBy(nodes, chains) && |apHash| == BUCKETS
      && forall h, k :: 0 <= h < BUCKETS && 0 <= k < |chains[h]| ==> chains[h][k] in nodes
    }

    ghost predicate HashOk()
      reads this`apHash, this`nodes, this`chains, nodes`hnext
    {
      HashShape() && forall h :: 0 <= h < BUCKETS ==> UniqueAddrs(chains[h]) && Chained(apHash[h], chains[h])
    }

    ghost predicate Recorded()
      reads this`nodes, this`table, nodes`info
    {
      Holds(nodes, table)
    }

    /** List, index and records agree; a table in the middle of an addition may be one too long. */
    ghost predicate Consistent()
      reads this`apList, this`numAp, this`nodes, this`apHash, this`chains, this`table,
            nodes`next, nodes`prev, nodes`hnext, nodes`info
    {
      ListOk() && HashOk() && Recorded() && numAp == |nodes|
    }

    ghost predicate Valid()
      reads this`apList, this`numAp, this`nodes, this`apHash, this`chains, this`table,
            nodes`next, nodes`prev, nodes`hnext, nodes`info
    {
      Consistent() && (|nodes| <= conf.maxSize || nodes == [])
    }

    ghost function Abs(): State
      reads this
    {
      State(table, olbc, olbcHt)
    }

    constructor (conf: Conf)
      ensures Valid() && Abs() == EMPTY && this.conf == conf
    {
      this.conf := conf;
      apList, numAp, olbc, olbcHt := null, 0, false, false;
      nodes, table := [], [];
      chains := seq(BUCKETS, _ => []);
      apHash := seq(BUCKETS, _ => null);
    }

    /** ap_get_ap */
    method GetAp(addr: Addr) returns (s: ApInfo?)
      requires HashOk()
      ensures s != null ==> s in nodes && s.addr == addr
      ensures s == null ==> forall n :: n in nodes ==> n.addr != addr
    {
      var h := Hash(addr);
      s := FindInChain(apHash[h], addr, chains[h]);
      if s == null {
        forall n | n in nodes ensures n.addr != addr { assert InItsChain(n, chains); }
      }
    }

    /** ap_ap_hash_add */
    method HashAdd(ap: ApInfo)
      requires HashOk() && ap !in nodes && forall n :: n in nodes ==> n.addr != ap.addr
      modifies this`apHash, this`chains, this`nodes, ap`hnext
      ensures HashOk() && nodes == [ap] + old(nodes) && ap.info == old(ap.info)
      ensures forall k :: 0 <= k < |old(nodes)| ==> old(nodes)[k].info == old(nodes[k].info)
    {
      var h := Hash(ap.addr);
      ghost var cs, ns := chains, nodes;
      assert ap !in chains[h];
      IndexedAfterAdd(nodes, chains, ap);
      UniqueAfterAdd(chains[h], ap);
      var head := ChainAdd(apHash[h], ap, chains[h]);
      label linked:
      apHash := apHash[h := head];
      chains := chains[h := [ap] + chains[h]];
      nodes := [ap] + nodes;
      forall g | 0 <= g < BUCKETS ensures UniqueAddrs(chains[g]) && Chained(apHash[g], chains[g]) {
        if g == h {
          HThreadedStill@linked(chains[h]);
        } else {
          forall i | 0 <= i < |cs[g]| ensures cs[g][i] != ap { assert cs[g][i] in ns; }
          HThreadedStill(cs[g]);
        }
      }
    }

    twostate lemma HashOkAfterDel(new i: nat, new h: nat, new k: nat, new head: ApInfo?)
      requires old(HashOk()) && i < |old(nodes)| && UniqueAddrs(old(nodes)) && h == Hash(old(nodes)[i].addr)
      requires var chain := old(chains)[h]; k < |chain| && chain[k] == old(nodes)[i]
      requires nodes == Removed(old(nodes), i) && chains == old(chains)[h := Removed(old(chains)[h], k)]
      requires Chained(head, chains[h]) && UniqueAddrs(chains[h]) && apHash == old(apHash)[h := head]
      requires forall n :: n in old(nodes) && n !in old(chains)[h] ==> n.hnext == old(n.hnext)
      ensures HashOk()
    {
      ghost var cs := old(chains);
      IndexedAfterDel(old(nodes), cs, i, k);
      forall g | 0 <= g < BUCKETS && g != h ensures Chained(apHash[g], chains[g]) {
        forall q | 0 <= q < |cs[g]| ensures cs[g][q].hnext == old(cs[g][q].hnext) {
          assert cs[g][q] in cs[g];
        }
        HThreadedStill(cs[g]);
      }
    }

    /** ap_ap_hash_del */
    method HashDel(ap: ApInfo, ghost i: nat)
      requires HashOk() && i < |nodes| && nodes[i] == ap && UniqueAddrs(nodes)
      modifies this`apHash, this`chains, this`nodes, nodes`hnext
      ensures HashOk() && nodes == Removed(old(nodes), i)
      ensures forall k :: 0 <= k < |old(nodes)| ==> old(nodes)[k].info == old(nodes[k].info)
    {
      var h := Hash(ap.addr);
      ghost var chain := chains[h];
      assert InItsChain(ap, chains);
      ghost var k :| 0 <= k < |chain| && chain[k] == ap;
      UniqueAfterDel(chain, k);
      var head := ChainDel(apHash[h], ap, chain, k);
      label unlinked:
      apHash := apHash[h := head];
      chains := chains[h := Removed(chain, k)];
      nodes := Removed(nodes, i);
      HThreadedStill@unlinked(chains[h]);
      HashOkAfterDel(i, h, k, head);
    }

    /** The index does not depend on the list pointers. */
    twostate lemma HashOkStill()
      requires old(HashOk()) && unchanged(this`apHash, this`nodes, this`chains)
      requires forall n :: n in nodes ==> n.hnext == old(n.hnext)
      ensures HashOk()
    {}

    /** The list does not depend on the index. */
    twostate lemma ThreadedStill(ns: seq<ApInfo>)
      requires old(Threaded(ns)) && forall n :: n in ns ==> n.next == old(n.next) && n.prev == old(n.prev)
      ensures Threaded(ns)
    {}

    /** Take a node out of the index and the list. */
    method UnlinkPointers(ap: ApInfo, ghost i: nat)
      requires ListOk() && HashOk() && i < |nodes| && nodes[i] == ap
      modifies this`apList, this`nodes, this`apHash, this`chains, nodes`next, nodes`prev, nodes`hnext
      ensures ListOk() && HashOk() && nodes == Removed(old(nodes), i)
      ensures forall k :: 0 <= k < |old(nodes)| ==> old(nodes)[k].info == old(nodes[k].info)
    {
      ghost var ns := nodes;
      UniqueAfterDel(ns, i);
      HashDel(ap, i);
      ThreadedStill(ns);
      label unhashed:
      apList := ListDel(apList, ap, ns, i);
      RemovedSubset(ns, i);
      HashOkStill@unhashed();
    }

    method Unlink(ap: ApInfo, ghost i: nat)
      requires ListOk() && HashOk() && Recorded() && i < |nodes| && nodes[i] == ap
      modifies this`apList, this`nodes, this`apHash, this`chains, this`table, nodes`next, nodes`prev, nodes`hnext
      ensures ListOk() && HashOk() && Recorded() && |nodes| == |old(nodes)| - 1
      ensures nodes == Removed(old(nodes), i) && table == Removed(old(table), i)
    {
      ghost var ns, t := nodes, table;
      table := Removed(table, i);
      UnlinkPointers(ap, i);
      HoldsAfterDel(ns, t, i);
    }

    /** Put a new node at the front of the list and of its bucket. */
    method LinkPointers(ap: ApInfo)
      requires ListOk() && HashOk() && ap !in nodes && forall n :: n in nodes ==> n.addr != ap.addr
      modifies this`apList, this`nodes, this`apHash, this`chains, ap`next, ap`prev, ap`hnext, nodes`prev
      ensures ListOk() && HashOk() && nodes == [ap] + old(nodes) && ap.info == old(ap.info)
      ensures forall k :: 0 <= k < |old(nodes)| ==> old(nodes)[k].info == old(nodes[k].info)
    {
      ghost var ns, more := nodes, [ap] + nodes;
      UniqueAfterAdd(ns, ap);
      apList := ListAdd(apList, ap, ns);
      HashOkStill();
      label listed:
      HashAdd(ap);
      ThreadedStill@listed(more);
    }

    method Link(ap: ApInfo)
      requires ListOk() && HashOk() && Recorded() && ap !in nodes && forall n :: n in nodes ==> n.addr != ap.addr
      modifies this`apList, this`nodes, this`apHash, this`chains, this`table, ap`next, ap`prev, ap`hnext, nodes`prev
      ensures ListOk() && HashOk() && Recorded() && |nodes| == |old(nodes)| + 1
      ensures nodes == [ap] + old(nodes) && table == [RecordOf(ap.addr, old(ap.info))] + old(table)
    {
      ghost var ns, t := nodes, table;
      table := [RecordOf(ap.addr, ap.info)] + table;
      LinkPointers(ap);
      HoldsAfterAdd(ns, t, ap);
    }

    /** ap_free_ap */
    method FreeAp(ap: ApInfo, ghost i: nat)
      requires Consistent() && i < |nodes| && nodes[i] == ap
      modifies this`apList, this`numAp, this`nodes, this`apHash, this`chains, this`table,
               nodes`next, nodes`prev, nodes`hnext
      ensures Consistent()
      ensures nodes == Removed(old(nodes), i) && table == Removed(old(table), i)
    {
      numAp := numAp - 1;
      Unlink(ap, i);
    }

    /** Free the node the head's prev points at, which is the last one. */
    method EvictTail()
      requires Consistent() && nodes != []
      modifies this`apList, this`numAp, this`nodes, this`apHash, this`chains, this`table,
               nodes`next, nodes`prev, nodes`hnext
      ensures Consistent()
      ensures nodes == old(nodes[..|nodes| - 1]) && table == old(table[..|table| - 1])
    {
      RemoveLast(nodes);
      RemoveLast(table);
      FreeAp(apList.prev, |nodes| - 1);
    }

    /** The first half of ap_ap_add: link a new node in front and count it. */
    method AddFront(ap: ApInfo)
      requires Consistent() && ap !in nodes && forall n :: n in nodes ==> n.addr != ap.addr
      modifies this`apList, this`numAp, this`nodes, this`apHash, this`chains, this`table,
               ap`next, ap`prev, ap`hnext, nodes`prev
      ensures Consistent() && nodes == [ap] + old(nodes) && table == [RecordOf(ap.addr, old(ap.info))] + old(table)
    {
      numAp := numAp + 1;
      Link(ap);
    }

    /** The second half of ap_ap_add: free the tail when the table has outgrown its limit. */
    method Trim(ap: ApInfo, ghost x: Ap, ghost before: Table)
      requires Consistent() && conf.maxSize >= 1 && nodes != [] && nodes[0] == ap
      requires table == [x] + before && (|before| <= conf.maxSize || before == [])
      modifies this`apList, this`numAp, this`nodes, this`apHash, this`chains, this`table,
               nodes`next, nodes`prev, nodes`hnext
      ensures Valid() && nodes != [] && nodes[0] == ap && nodes <= old(nodes)
      ensures table == PushedOnto(x, before, conf.maxSize)
    {
      PushedIsCut(x, before, conf.maxSize);
      assert ap.prev == nodes[|nodes| - 1];
      if numAp > conf.maxSize && ap != ap.prev {
        EvictTail();
      }
    }

    /** ap_ap_add: a new node in front, and the tail freed when the table outgrows its limit. */
    method AddAp(addr: Addr) returns (ap: ApInfo)
      requires Valid() && conf.maxSize >= 1 && forall n :: n in nodes ==> n.addr != addr
      modifies this`apList, this`numAp, this`nodes, this`apHash, this`chains, this`table,
               nodes`next, nodes`prev, nodes`hnext
      ensures Valid() && fresh(ap) && nodes != [] && nodes[0] == ap && ap.addr == addr
      ensures table == PushedOnto(Blank(addr), old(table), conf.maxSize)
      ensures nodes <= [ap] + old(nodes)
    {
      ap := new ApInfo(addr);
      AddFront(ap);
      Trim(ap, Blank(addr), old(table));
    }

    /** Reordering the list does not touch the index. */
    twostate lemma HashOkReordered()
      requires old(HashOk()) && unchanged(this`apHash, this`chains)
      requires forall n :: n in old(nodes) <==> n in nodes
      requires forall n :: n in old(nodes) ==> n.hnext == old(n.hnext)
      ensures HashOk()
    {
      IndexedReordered(old(nodes), nodes, chains);
      forall h | 0 <= h < BUCKETS ensures Chained(apHash[h], chains[h]) {
        forall k | 0 <= k < |chains[h]| ensures chains[h][k].hnext == old(chains[h][k].hnext) {
          assert chains[h][k] in old(nodes);
        }
        HThreadedStill(chains[h]);
      }
    }

    /** Move a listed node to the front; the index does not change. */
    method MovePointers(ap: ApInfo, ghost i: nat)
      requires ListOk() && HashOk() && i < |nodes| && nodes[i] == ap
      modifies this`apList, this`nodes, nodes`next, nodes`prev
      ensures ListOk() && HashOk() && nodes == Moved(old(nodes), i)
      ensures forall k :: 0 <= k < |old(nodes)| ==> old(nodes)[k].info == old(nodes[k].info)
    {
      ghost var ns := nodes;
      UniqueAfterMove(ns, i);
      RelistedStill(ns, i);
      apList := ListDel(apList, ap, ns, i);
      apList := ListAdd(apList, ap, Removed(ns, i));
      nodes := Moved(ns, i);
      HashOkReordered();
    }

    method MoveFront(ap: ApInfo, ghost i: nat)
      requires Valid() && i < |nodes| && nodes[i] == ap
      modifies this`apList, this`nodes, this`table, nodes`next, nodes`prev
      ensures Valid() && nodes == Moved(old(nodes), i) && table == Moved(old(table), i)
    {
      ghost var ns, t := nodes, table;
      table := Moved(table, i);
      MovePointers(ap, i);
      HoldsAfterMove(ns, t, i);
    }

    /** Store what the beacon says in a listed node. */
    method Store(ap: ApInfo, ghost i: nat, b: Beacon, now: Time)
      requires UniqueAddrs(nodes) && Recorded() && i < |nodes| && nodes[i] == ap
      modifies ap`info, this`table
      ensures Recorded() && table == old(table)[i := Refresh(old(table)[i], b, now)]
    {
      OnlyAt(nodes, i);
      ghost var ns, t := nodes, table;
      assert t[i] == RecordOf(ap.addr, ap.info);
      ap.info := Updated(ap.addr, ap.info, b, now);
      HoldsAfterStore(ns, t, i);
      table := t[i := RecordOf(ap.addr, ap.info)];
    }

    /** ap_list_beacon_olbc */
    method BeaconOlbc(ap: Ap) returns (r: bool)
      ensures r == TriggersOlbc(conf, ap)
    {
      if !conf.modeG || conf.channel != ap.channel { return false; }
      if ap.erp.Some? && ap.erp.value % 2 == 1 { return true; }
      var i := 0;
      while i < |ap.rates|
        invariant 0 <= i <= |ap.rates| && forall q :: 0 <= q < i ==> SlowRate(ap.rates[q])
      {
        var rate := (ap.rates[i] % 128) as int * 5;
        if rate == 60 || rate == 90 || rate > 110 { return false; }
        i := i + 1;
      }
      return true;
    }

    /** A beacon from a listed access point. */
    method HearKnown(ap: ApInfo, ghost i: nat, b: Beacon, now: Time)
      requires Valid() && i < |nodes| && nodes[i] == ap && ap.addr == b.bssid
      modifies this`apList, this`nodes, this`table, nodes`next, nodes`prev, nodes`info
      ensures Valid() && nodes == Moved(old(nodes), i) && table == Heard(conf, old(table), b, now)
    {
      HeardOld(nodes, table, i, conf, b, now);
      Store(ap, i, b, now);
      OnlyAt(nodes, i);
      if ap != apList {
        MoveFront(ap, i);
      }
    }

    /** A beacon from an access point that is not listed. */
    method HearNew(b: Beacon, now: Time)
      requires Valid() && conf.maxSize >= 1 && forall n :: n in nodes ==> n.addr != b.bssid
      modifies this`apList, this`numAp, this`nodes, this`apHash, this`chains, this`table, nodes
      ensures Valid() && nodes != [] && table == Heard(conf, old(table), b, now)
      ensures forall k :: 1 <= k < |nodes| ==> nodes[k] in old(nodes)
      ensures fresh(nodes[0])
    {
      HeardNew(nodes, table, conf, b, now);
      var ap := AddAp(b.bssid);
      assert table[0] == Blank(b.bssid);
      Store(ap, 0, b, now);
    }

    /** The first half of ap_list_process_beacon: the sender's record ends up fresh and in front. */
    method Hear(b: Beacon, now: Time)
      requires Valid() && conf.maxSize >= 1
      modifies this`apList, this`numAp, this`nodes, this`apHash, this`chains, this`table, nodes
      ensures Valid() && nodes != [] && table == Heard(conf, old(table), b, now)
      ensures forall n :: n in nodes ==> n in old(nodes) || fresh(n)
    {
      var ap := GetAp(b.bssid);
      if ap == null {
        HearNew(b, now);
      } else {
        ghost var i :| 0 <= i < |nodes| && nodes[i] == ap;
        RelistedStill(nodes, i);
        HearKnown(ap, i, b, now);
      }
    }

    /** The flags are no part of the list. */
    twostate lemma ListUntouched()
      requires old(Valid())
      requires unchanged(this`apList, this`numAp, this`nodes, this`apHash, this`chains, this`table)
      requires forall n :: n in nodes ==>
        n.next == old(n.next) && n.prev == old(n.prev) && n.hnext == old(n.hnext) && n.info == old(n.info)
      ensures Valid()
    {
      ThreadedStill(nodes);
      HashOkStill();
      forall k | 0 <= k < |nodes| ensures nodes[k].info == old(nodes[k].info) {
        assert nodes[k] in nodes;
      }
    }

    /** The second half of ap_list_process_beacon, for the record now in front. */
    method RaiseFlags() returns (setBeacon: nat)
      requires ListOk() && Recorded() && nodes != []
      modifies this`olbc, this`olbcHt
      ensures olbc == (old(olbc) || TriggersOlbc(conf, table[0]))
      ensures olbcHt == (old(olbcHt) || TriggersOlbcHt(conf, table[0]))
      ensures setBeacon == (if olbc != old(olbc) then 1 else 0) + (if olbcHt != old(olbcHt) then 1 else 0)
    {
      setBeacon := 0;
      var ap := RecordOf(apList.addr, apList.info);
      assert ap == table[0];
      if !olbc {
        var triggers := BeaconOlbc(ap);
        if triggers {
          olbc := true;
          setBeacon := setBeacon + 1;
        }
      }
      if !olbcHt && !ap.ht && (ap.channel == 0 || ap.channel == conf.channel
                               || ap.channel == conf.channel + conf.secondary * 4) {
        olbcHt := true;
        setBeacon := setBeacon + 1;
      }
    }

    /** ap_list_process_beacon; setBeacon counts the flags that were raised. */
    method ProcessBeacon(b: Beacon, now: Time) returns (setBeacon: nat)
      requires Valid()
      modifies this, nodes
      ensures Valid() && Abs() == BeaconStep(conf, old(Abs()), b, now)
      ensures setBeacon == (if olbc != old(olbc) then 1 else 0) + (if olbcHt != old(olbcHt) then 1 else 0)
      ensures forall n :: n in nodes ==> n in old(nodes) || fresh(n)
    {
      setBeacon := 0;
      if conf.maxSize < 1 { return; }
      Hear(b, now);
      label Heard:
      setBeacon := RaiseFlags();
      ListUntouched@Heard();
    }

    /** The first loop of ap_list_timer: free the tail while it is expired. */
    method FreeExpired(now: Time)
      requires Valid()
      modifies this`apList, this`numAp, this`nodes, this`apHash, this`chains, this`table,
               nodes`next, nodes`prev, nodes`hnext
      ensures Valid() && table == DropExpired(conf, old(table), now)
      ensures nodes <= old(nodes)
    {
      while apList != null
        invariant Valid() && nodes <= old(nodes)
        invariant DropExpired(conf, table, now) == DropExpired(conf, old(table), now)
        decreases |nodes|
      {
        var ap := apList.prev;
        assert ap == nodes[|nodes| - 1];
        if !Expired(now, ap.info.lastBeacon, conf.expiration) { break; }
        EvictTail();
      }
    }

    /** The second loop of ap_list_timer: does any listed access point still call for protection? */
    method StillDetected() returns (anyOlbc: bool, anyLegacy: bool)
      requires ListOk() && Recorded()
      ensures anyOlbc == SomeOlbc(conf, table)
      ensures anyLegacy == SomeLegacy(table)
    {
      anyOlbc, anyLegacy := false, false;
      var ap := apList;
      ghost var k := 0;
      while ap != null && !(anyOlbc && anyLegacy)
        invariant 0 <= k <= |nodes| && ap == (if k < |nodes| then nodes[k] else null)
        invariant anyOlbc == exists q :: 0 <= q < k && TriggersOlbc(conf, table[q])
        invariant anyLegacy == exists q :: 0 <= q < k && !table[q].ht
        decreases |nodes| - k
      {
        var record := RecordOf(ap.addr, ap.info);
        assert record == table[k];
        var triggers := BeaconOlbc(record);
        if triggers { anyOlbc := true; }
        if !record.ht { anyLegacy := true; }
        assert k < |nodes| - 1 ==> nodes[k].next == nodes[k + 1];
        ap := ap.next;
        k := k + 1;
      }
    }

    /** The second half of ap_list_timer: drop the flags nobody calls for any more. */
    method LowerFlags() returns (setBeacon: nat)
      requires ListOk() && Recorded()
      modifies this`olbc, this`olbcHt
      ensures olbc == (old(olbc) && SomeOlbc(conf, table))
      ensures olbcHt == (old(olbcHt) && SomeLegacy(table))
      ensures setBeacon == (if olbc != old(olbc) then 1 else 0) + (if olbcHt != old(olbcHt) then 1 else 0)
    {
      setBeacon := 0;
      if olbc || olbcHt {
        var anyOlbc, anyLegacy := StillDetected();
        if !anyOlbc && olbc {
          olbc := false;
          setBeacon := setBeacon + 1;
        }
        if !anyLegacy && olbcHt {
          olbcHt := false;
          setBeacon := setBeacon + 1;
        }
      }
    }

    /** ap_list_timer; setBeacon counts the flags that were lowered. */
    method Timer(now: Time) returns (setBeacon: nat)
      requires Valid()
      modifies this, nodes
      ensures Valid() && Abs() == TickStep(conf, old(Abs()), now)
      ensures setBeacon == (if olbc != old(olbc) then 1 else 0) + (if olbcHt != old(olbcHt) then 1 else 0)
      ensures nodes <= old(nodes)
    {
      setBeacon := 0;
      if apList == null { return; }
      FreeExpired(now);
      label Freed:
      setBeacon := LowerFlags();
      ListUntouched@Freed();
    }
  }

  lemma PushedIsCut(x: Ap, t: Table, max: int)
    ensures PushedOnto(x, t, max) == if |t| + 1 > max && t != [] then ([x] + t)[..|t|] else [x] + t
  {
    assert t != [] ==> ([x] + t)[..|t|] == [x] + t[..|t| - 1];
  }

  lemma HoldsUnique(ns: seq<ApInfo>, t: Table)
    requires Holds(ns, t) && UniqueAddrs(ns)
    ensures Unique(t)
  {
    forall i, j | 0 <= i < j < |t| ensures t[i].addr != t[j].addr {
      assert ns[i].addr != ns[j].addr;
    }
  }

  lemma HeardNew(ns: seq<ApInfo>, t: Table, c: Conf, b: Beacon, now: Time)
    requires Holds(ns, t) && UniqueAddrs(ns) && forall n :: n in ns ==> n.addr != b.bssid
    ensures var pushed := PushedOnto(Blank(b.bssid), t, c.maxSize);
      Heard(c, t, b, now) == pushed[0 := Refresh(Blank(b.bssid), b, now)]
  {
    HoldsUnique(ns, t);
    var i := HeardCases(c, t, b, now);
    assert forall k :: 0 <= k < |ns| ==> ns[k] in ns;
  }

  lemma HeardOld(ns: seq<ApInfo>, t: Table, i: nat, c: Conf, b: Beacon, now: Time)
    requires Holds(ns, t) && UniqueAddrs(ns) && i < |ns| && ns[i].addr == b.bssid
    ensures Heard(c, t, b, now) == Moved(t[i := Refresh(t[i], b, now)], i)
    ensures i == 0 ==> Heard(c, t, b, now) == t[i := Refresh(t[i], b, now)]
  {
    HoldsUnique(ns, t);
    WithoutAt(t, i);
    var x := Refresh(t[i], b, now);
    var u := t[i := x];
    assert u[..i] == t[..i] && u[i + 1..] == t[i + 1..];
  }

  function Moved<T>(s: seq<T>, i: nat): (r: seq<T>)
    requires i < |s|
    ensures |r| == |s|
  {
    [s[i]] + Removed(s, i)
  }

  lemma UniqueAfterMove(ns: seq<ApInfo>, i: nat)
    requires UniqueAddrs(ns) && i < |ns|
    ensures UniqueAddrs(Moved(ns, i)) && UniqueAddrs(Removed(ns, i))
  {
    UniqueAfterDel(ns, i);
    forall n | n in Removed(ns, i) ensures n.addr != ns[i].addr {
      var p :| 0 <= p < |Removed(ns, i)| && Removed(ns, i)[p] == n;
      assert n == ns[if p < i then p else p + 1];
      assert ns[if p < i then p else p + 1].addr != ns[i].addr;
    }
    UniqueAfterAdd(Removed(ns, i), ns[i]);
  }

  lemma RelistedStill(ns: seq<ApInfo>, i: nat)
    requires UniqueAddrs(ns) && i < |ns|
    ensures forall n :: n in ns <==> n in Moved(ns, i)
    ensures ns[i] !in Removed(ns, i)
  {
    NoneTwice(ns);
    RemovedMembers(ns, i);
  }

  twostate lemma HoldsAfterStore(ns: seq<ApInfo>, new t: Table, new i: nat)
    requires old(Holds(ns, t)) && i < |ns|
    requires forall k :: 0 <= k < |ns| && k != i ==> ns[k].info == old(ns[k].info)
    ensures Holds(ns, t[i := RecordOf(ns[i].addr, ns[i].info)])
  {}

  twostate lemma HoldsAfterMove(ns: seq<ApInfo>, new t: Table, new i: nat)
    requires old(Holds(ns, t)) && i < |ns|
    requires forall k :: 0 <= k < |ns| ==> ns[k].info == old(ns[k].info)
    ensures Holds(Moved(ns, i), Moved(t, i))
  {
    HoldsAfterDel(ns, t, i);
    var r := Moved(ns, i);
    assert forall p :: 1 <= p < |r| ==> r[p] == Removed(ns, i)[p - 1];
  }

  lemma IndexedReordered(ns: seq<ApInfo>, ms: seq<ApInfo>, chains: seq<seq<ApInfo>>)
    requires IndexedBy(ns, chains) && forall n :: n in ns <==> n in ms
    ensures IndexedBy(ms, chains)
  {
    forall n | n in ms ensures InItsChain(n, chains) {
      assert n in ns;
    }
  }
}
