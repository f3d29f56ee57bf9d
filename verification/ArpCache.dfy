/** The ARP cache in place (net/arp.c:11-123): inline bucket heads, linked entries. */
module ArpCache {
  import opened Arp
  import opened Sets

  class HashEntry {
    var ip: nat
    var mac: Mac
    var next: HashEntry?

    constructor (ip: nat, mac: Mac, next: HashEntry?)
      ensures this.ip == ip && this.mac == mac && this.next == next
    {
      this.ip, this.mac, this.next := ip, mac, next;
    }
  }

  function After(l: seq<HashEntry>, k: nat): HashEntry? {
    if k + 1 < |l| then l[k + 1] else null
  }

  ghost predicate LinkAt(l: seq<HashEntry>, k: nat)
    requires k < |l|
    reads l
  {
    l[k].next == After(l, k)
  }

  /** The entries of l, linked in this order and ending in NULL. */
  ghost predicate Chain(l: seq<HashEntry>)
    reads l
  {
    l != [] && NoDup(l) && forall k {:trigger LinkAt(l, k)} :: 0 <= k < |l| ==> LinkAt(l, k)
  }

  ghost function Entries(l: seq<HashEntry>): (b: Bucket)
    reads l
    ensures |b| == |l|
  {
    seq(|l|, k requires 0 <= k < |l| reads l => Entry(l[k].ip, l[k].mac))
  }

  /** The loop of hash_put: looks for ip along the chain. */
  method Contains(head: HashEntry, ip: nat, ghost l: seq<HashEntry>) returns (found: bool)
    requires Chain(l) && l[0] == head
    ensures found <==> IndexOf(Entries(l), ip) < |l|
  {
    var current: HashEntry? := head;
    ghost var k := 0;
    while current != null
      invariant k <= |l| && current == (if k < |l| then l[k] else null)
      invariant forall j :: 0 <= j < k ==> Entries(l)[j].ip != ip
      decreases |l| - k
    {
      assert LinkAt(l, k);
      if current.ip == ip {
        assert Entries(l)[k].ip == ip;
        return true;
      }
      current := current.next;
      k := k + 1;
    }
    return false;
  }

  /** A new entry behind the head. */
  twostate lemma ChainWith(l: seq<HashEntry>, new n: HashEntry)
    requires old(Chain(l)) && n !in l && l[0].next == n && n.next == After(l, 0)
    requires forall j :: 1 <= j < |l| ==> l[j].next == old(l[j].next)
    ensures Chain([l[0], n] + l[1..])
  {
    var l' := [l[0], n] + l[1..];
    forall k | 0 <= k < |l'| ensures LinkAt(l', k) {
      if k >= 2 {
        assert l'[k] == l[k - 1] && old(LinkAt(l, k - 1));
        assert After(l', k) == After(l, k - 1);
      }
    }
    assert forall k :: 2 <= k < |l'| ==> l'[k] == l[k - 1];
  }

  lemma EntriesWith(l: seq<HashEntry>, n: HashEntry)
    requires l != []
    ensures Entries([l[0], n] + l[1..]) == [Entries(l)[0], Entry(n.ip, n.mac)] + Entries(l)[1..]
  {
    var l' := [l[0], n] + l[1..];
    assert forall k :: 2 <= k < |l'| ==> l'[k] == l[k - 1];
  }

  /** hash_put below the bucket index; added tells whether size grows. */
  method PutChain(head: HashEntry, ip: nat, mac: Mac, ghost l: seq<HashEntry>) returns (added: bool, ghost l': seq<HashEntry>)
    requires Chain(l) && l[0] == head
    modifies l
    ensures Chain(l') && l'[0] == head && (forall x :: x in l' ==> x in l || fresh(x))
    ensures added == Adds(old(Entries(l)), ip) && Entries(l') == PutBucket(old(Entries(l)), ip, mac)
  {
    ghost var b := Entries(l);
    if head.ip == 0 {
      head.ip, head.mac := ip, mac;
      assert Entries(l) == b[0 := Entry(ip, mac)];
      forall k | 0 <= k < |l| ensures LinkAt(l, k) { assert old(LinkAt(l, k)); }
      return true, l;
    }
    var found := Contains(head, ip, l);
    if found {
      head.mac := mac;
      assert Entries(l) == b[0 := Entry(b[0].ip, mac)];
      forall k | 0 <= k < |l| ensures LinkAt(l, k) { assert old(LinkAt(l, k)); }
      return false, l;
    }
    assert LinkAt(l, 0);
    var n := new HashEntry(ip, mac, head.next);
    head.next := n;
    l' := [head, n] + l[1..];
    ChainWith(l, n);
    assert Entries(l) == b;
    EntriesWith(l, n);
    added := true;
  }

  /** hash_get below the bucket index. */
  method GetChain(head: HashEntry, ip: nat, ghost l: seq<HashEntry>) returns (answer: Answer)
    requires Chain(l) && l[0] == head
    ensures answer == GetBucket(Entries(l), ip)
  {
    var e: HashEntry? := head;
    ghost var k, b := 0, Entries(l);
    while e != null && e.ip != 0 && ip != e.ip
      invariant k <= |l| && e == (if k < |l| then l[k] else null)
      invariant GetBucket(b, ip) == GetBucket(b[k..], ip)
      decreases |l| - k
    {
      assert LinkAt(l, k) && b[k..][0] == b[k] && b[k..][1..] == b[k + 1..];
      e := e.next;
      k := k + 1;
    }
    if e == null {
      return NullRead;
    }
    assert b[k..][0] == b[k];
    if e.ip == 0 {
      return Unknown;
    }
    return Mapped(e.mac);
  }

  lemma NoDupWithout(l: seq<HashEntry>, k: nat)
    requires k < |l| && NoDup(l)
    ensures NoDup(l[..k] + l[k + 1..])
  {
    var l' := l[..k] + l[k + 1..];
    assert forall j :: 0 <= j < |l'| ==> l'[j] == l[if j < k then j else j + 1];
  }

  /** Entry k is unlinked once the one in front of it leads past it. */
  twostate lemma ChainWithout(l: seq<HashEntry>, new k: nat)
    requires old(Chain(l)) && 0 < k < |l| && l[k - 1].next == After(l, k)
    requires forall j :: 0 <= j < |l| && j != k - 1 ==> l[j].next == old(l[j].next)
    ensures Chain(l[..k] + l[k + 1..])
  {
    var l' := l[..k] + l[k + 1..];
    NoDupWithout(l, k);
    forall j | 0 <= j < |l'| ensures LinkAt(l', j) {
      var i := if j < k then j else j + 1;
      assert l'[j] == l[i] && old(LinkAt(l, i));
      assert j != k - 1 ==> After(l', j) == After(l, i);
      assert j == k - 1 ==> After(l', j) == After(l, k);
    }
  }

  lemma EntriesWithout(l: seq<HashEntry>, k: nat)
    requires k < |l|
    ensures Entries(l[..k] + l[k + 1..]) == Entries(l)[..k] + Entries(l)[k + 1..]
  {
  }

  /** hash_remove for an entry behind the head: p trails entry along the chain. */
  method Unlink(head: HashEntry, ip: nat, ghost l: seq<HashEntry>) returns (dropped: bool, ghost l': seq<HashEntry>)
    requires Chain(l) && l[0] == head && head.ip != ip
    modifies l
    ensures Chain(l') && l'[0] == head && (forall x :: x in l' ==> x in l)
    ensures dropped == (IndexOf(old(Entries(l)), ip) < |l|)
    ensures
      var b, k := old(Entries(l)), IndexOf(old(Entries(l)), ip);
      Entries(l') == if k < |b| then b[..k] + b[k + 1..] else b
  {
    ghost var k, b := 0, Entries(l);
    var p := head;
    assert LinkAt(l, 0);
    var entry := head.next;
    while entry != null && entry.ip != ip
      invariant k < |l| && p == l[k] && entry == After(l, k)
      invariant forall j :: 0 <= j <= k ==> b[j].ip != ip
      decreases |l| - k
    {
      assert LinkAt(l, k + 1);
      p := entry;
      entry := entry.next;
      k := k + 1;
    }
    if entry == null {
      return false, l;
    }
    k := k + 1;
    assert b[k].ip == ip && IndexOf(b, ip) == k;
    assert LinkAt(l, k);
    p.next := entry.next;
    l' := l[..k] + l[k + 1..];
    ChainWithout(l, k);
    assert Entries(l) == b;
    EntriesWithout(l, k);
    dropped := true;
  }

  /** hash_remove below the bucket index; dropped tells whether size shrinks. */
  method RemoveChain(head: HashEntry, ip: nat, ghost l: seq<HashEntry>) returns (dropped: bool, ghost l': seq<HashEntry>)
    requires Chain(l) && l[0] == head
    modifies l
    ensures Chain(l') && l'[0] == head && (forall x :: x in l' ==> x in l)
    ensures dropped == Drops(old(Entries(l)), ip) && Entries(l') == RemoveBucket(old(Entries(l)), ip)
  {
    ghost var b := Entries(l);
    if head.ip == 0 {
      return false, l;
    }
    if head.ip != ip {
      dropped, l' := Unlink(head, ip, l);
      return;
    }
    assert IndexOf(b, ip) == 0;
    assert LinkAt(l, 0);
    if head.next != null {
      var temp := head.next;
      assert LinkAt(l, 1);
      head.ip, head.mac, head.next := temp.ip, temp.mac, temp.next;
      l' := [head] + l[2..];
      forall k | 0 <= k < |l'| ensures LinkAt(l', k) {
        assert k > 0 ==> old(LinkAt(l, k + 1)) && l'[k] == l[k + 1];
      }
      assert Entries(l') == b[..0] + b[1..];
    } else {
      head.ip, head.mac := 0, NO_MAC;
      l' := l;
      assert LinkAt(l, 0);
      assert Entries(l) == [Entry(0, NO_MAC)];
    }
    dropped := true;
  }

  class HashMap {
    var size: int
    const list: seq<HashEntry>
    ghost var chains: seq<seq<HashEntry>>

    ghost predicate ChainAt(i: nat)
      requires i < |chains| && |chains| == |list|
      reads this, chains[i]
    {
      Chain(chains[i]) && chains[i][0] == list[i]
    }

    ghost function Nodes(): set<HashEntry>
      reads this
    {
      set i, k | 0 <= i < |chains| && 0 <= k < |chains[i]| :: chains[i][k]
    }

    ghost predicate Apart(i: nat, j: nat)
      requires i < |chains| && j < |chains|
      reads this
    {
      forall x :: x in chains[i] ==> x !in chains[j]
    }

    ghost predicate Valid()
      reads this, Nodes()
    {
      && |chains| == |list| > 0
      && (forall i {:trigger ChainAt(i)} :: 0 <= i < |chains| ==> ChainAt(i))
      && (forall i, j {:trigger Apart(i, j)} :: 0 <= i < |chains| && 0 <= j < |chains| && i != j ==> Apart(i, j))
    }

    lemma NoneEmpty()
      requires Valid()
      ensures forall i {:trigger chains[i]} :: 0 <= i < |chains| ==> chains[i] != []
    {
      forall i | 0 <= i < |chains| ensures chains[i] != [] { assert ChainAt(i); }
    }

    ghost function Contents(): (t: Table)
      requires Valid()
      reads this, Nodes()
      ensures HasHeads(t) && |t.buckets| == |list|
    {
      NoneEmpty();
      Table(size, seq(|chains|, i requires 0 <= i < |chains| reads this, Nodes() => Entries(chains[i])))
    }

    /** One bucket got new links and entries; the other buckets are as they were. */
    twostate lemma OthersKept(index: nat, new l: seq<HashEntry>)
      requires old(Valid()) && index < |list| && chains == old(chains)[index := l]
      requires Chain(l) && l[0] == list[index]
      requires forall x :: x in l ==> x in old(chains)[index] || fresh(x)
      requires forall x :: x in old(Nodes()) && x !in old(chains)[index] ==> unchanged(x)
      ensures Valid() && Contents().buckets == old(Contents()).buckets[index := Entries(l)]
      ensures Nodes() <= old(Nodes()) + (set x | x in l)
    {
      forall i | 0 <= i < |chains| && i != index ensures ChainAt(i) && Entries(chains[i]) == old(Entries(chains[i])) {
        assert old(ChainAt(i)) && old(Apart(i, index));
        forall k | 0 <= k < |chains[i]| ensures unchanged(chains[i][k]) { assert chains[i][k] in old(Nodes()); }
        forall k | 0 <= k < |chains[i]| ensures LinkAt(chains[i], k) { assert old(LinkAt(chains[i], k)); }
      }
      assert ChainAt(index);
      forall i, j | 0 <= i < |chains| && 0 <= j < |chains| && i != j ensures Apart(i, j) {
        assert old(Apart(i, j));
      }
      assert Contents().buckets == old(Contents()).buckets[index := Entries(l)];
    }

    constructor (heads: seq<HashEntry>)
      requires heads != [] && NoDup(heads)
      requires forall k :: 0 <= k < |heads| ==> heads[k].ip == 0 && heads[k].mac == NO_MAC && heads[k].next == null
      ensures Valid() && list == heads && Nodes() == (set x | x in heads) && Contents() == Empty(|heads|)
    {
      size, list := 0, heads;
      chains := seq(|heads|, i requires 0 <= i < |heads| => [heads[i]]);
      new;
      forall i | 0 <= i < |chains| ensures ChainAt(i) && Entries(chains[i]) == [Entry(0, NO_MAC)] { assert LinkAt(chains[i], 0); }
      forall x | x in heads ensures x in Nodes() {
        var i :| 0 <= i < |heads| && heads[i] == x;
        assert chains[i][0] == x;
      }
      assert Contents().buckets == Empty(|heads|).buckets;
    }

    /** hash_put */
    method Put(ip: nat, mac: Mac)
      requires Valid()
      modifies this, Nodes()
      ensures Valid() && fresh(Nodes() - old(Nodes())) && Contents() == Arp.Put(old(Contents()), ip, mac)
    {
      var index := ip % |list|;
      assert ChainAt(index);
      var added, l := PutChain(list[index], ip, mac, chains[index]);
      chains := chains[index := l];
      if added { size := size + 1; }
      OthersKept(index, l);
    }

    /** hash_get */
    method Get(ip: nat) returns (answer: Answer)
      requires Valid()
      ensures answer == Arp.Get(Contents(), ip)
    {
      assert ChainAt(ip % |list|);
      answer := GetChain(list[ip % |list|], ip, chains[ip % |list|]);
    }

    /** hash_remove */
    method Remove(ip: nat)
      requires Valid()
      modifies this, Nodes()
      ensures Valid() && Nodes() <= old(Nodes()) && Contents() == Arp.Remove(old(Contents()), ip)
    {
      var index := ip % |list|;
      assert ChainAt(index);
      var dropped, l := RemoveChain(list[index], ip, chains[index]);
      chains := chains[index := l];
      if dropped { size := size - 1; }
      OthersKept(index, l);
    }
  }
}
