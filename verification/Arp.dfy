/** The ARP cache (net/arp.c): a hash table whose bucket heads lie inside the table and
    whose further entries hang off the heads, and the finite map it stands for. */
module Arp {
  import opened Wrappers

  type Mac = m: seq<bv8> | |m| == 6 witness [0, 0, 0, 0, 0, 0]

  const NO_MAC: Mac := [0, 0, 0, 0, 0, 0]

  datatype Entry = Entry(ip: nat, mac: Mac)

  /** The head entry and the entries after it. Address 0 in the head marks an empty bucket. */
  type Bucket = seq<Entry>

  datatype Table = Table(size: int, buckets: seq<Bucket>)

  datatype Answer = Mapped(mac: Mac) | Unknown | NullRead

  function IndexOf(b: Bucket, ip: nat): (k: nat)
    ensures k <= |b| && (k < |b| ==> b[k].ip == ip)
    ensures forall j :: 0 <= j < k ==> b[j].ip != ip
  {
    if b == [] || b[0].ip == ip then 0 else 1 + IndexOf(b[1..], ip)
  }

  // ----- What each operation does to one bucket -----

  /** Whether a put takes a new entry. */
  predicate Adds(b: Bucket, ip: nat)
    requires b != []
  {
    b[0].ip == 0 || IndexOf(b, ip) == |b|
  }

  function PutBucket(b: Bucket, ip: nat, mac: Mac): (r: Bucket)
    requires b != []
    ensures r != []
  {
    if b[0].ip == 0 then b[0 := Entry(ip, mac)]
    else if IndexOf(b, ip) < |b| then b[0 := Entry(b[0].ip, mac)]
    else [b[0], Entry(ip, mac)] + b[1..]
  }

  /** Whether a remove gives an entry up. */
  predicate Drops(b: Bucket, ip: nat)
    requires b != []
  {
    b[0].ip != 0 && IndexOf(b, ip) < |b|
  }

  function RemoveBucket(b: Bucket, ip: nat): (r: Bucket)
    requires b != []
    ensures r != []
  {
    if !Drops(b, ip) then b
    else if |b| == 1 then [Entry(0, NO_MAC)]
    else b[..IndexOf(b, ip)] + b[IndexOf(b, ip) + 1..]
  }

  function GetBucket(b: Bucket, ip: nat): Answer {
    if b == [] then NullRead
    else if b[0].ip == 0 then Unknown
    else if b[0].ip == ip then Mapped(b[0].mac)
    else GetBucket(b[1..], ip)
  }

  // ----- The whole table -----

  /** The bucket of an address. */
  function BucketOf(t: Table, ip: nat): (i: nat)
    requires t.buckets != []
    ensures i < |t.buckets|
  {
    ip % |t.buckets|
  }

  predicate HasHeads(t: Table) {
    t.buckets != [] && forall i :: 0 <= i < |t.buckets| ==> t.buckets[i] != []
  }

  function Put(t: Table, ip: nat, mac: Mac): (r: Table)
    requires HasHeads(t)
    ensures HasHeads(r)
  {
    var i := BucketOf(t, ip);
    Table(t.size + if Adds(t.buckets[i], ip) then 1 else 0,
          t.buckets[i := PutBucket(t.buckets[i], ip, mac)])
  }

  function Remove(t: Table, ip: nat): (r: Table)
    requires HasHeads(t)
    ensures HasHeads(r)
  {
    var i := BucketOf(t, ip);
    Table(t.size - if Drops(t.buckets[i], ip) then 1 else 0,
          t.buckets[i := RemoveBucket(t.buckets[i], ip)])
  }

  function Get(t: Table, ip: nat): Answer
    requires HasHeads(t)
  {
    GetBucket(t.buckets[BucketOf(t, ip)], ip)
  }

  // ----- The map the table stands for -----

  /** An empty head has nothing behind it; otherwise every address is nonzero and belongs
      here, and none occurs twice. */
  ghost predicate BucketOk(b: Bucket, i: nat, n: nat)
    requires 0 < n
  {
    && b != []
    && (b[0].ip == 0 ==> |b| == 1)
    && (b[0].ip != 0 ==>
        && (forall k :: 0 <= k < |b| ==> b[k].ip != 0 && b[k].ip % n == i)
        && (forall j, k :: 0 <= j < k < |b| ==> b[j].ip != b[k].ip))
  }

  function Keys(t: Table): set<nat> {
    set i, k | 0 <= i < |t.buckets| && 0 <= k < |t.buckets[i]| && t.buckets[i][k].ip != 0 :: t.buckets[i][k].ip
  }

  /** The MAC a bucket holds for an address. */
  function Found(b: Bucket, ip: nat): Option<Mac> {
    if ip != 0 && IndexOf(b, ip) < |b| then Some(b[IndexOf(b, ip)].mac) else None
  }

  function Lookup(t: Table, ip: nat): Option<Mac>
    requires t.buckets != []
  {
    Found(t.buckets[BucketOf(t, ip)], ip)
  }

  function View(t: Table): map<nat, Mac>
    requires t.buckets != []
  {
    map ip | ip in Keys(t) && Lookup(t, ip).Some? :: Lookup(t, ip).value
  }

  ghost predicate Ok(t: Table) {
    t.buckets != [] && forall i {:trigger t.buckets[i]} :: 0 <= i < |t.buckets| ==> BucketOk(t.buckets[i], i, |t.buckets|)
  }

  /** Ok, and size counts the mapped addresses. */
  ghost predicate Sound(t: Table) {
    Ok(t) && t.size == |View(t)|
  }

  lemma ViewLookup(t: Table, ip: nat)
    requires t.buckets != []
    ensures ip in View(t) <==> Lookup(t, ip).Some?
    ensures ip in View(t) ==> View(t)[ip] == Lookup(t, ip).value
  {
    if Lookup(t, ip).Some? {
      var i := BucketOf(t, ip);
      assert t.buckets[i][IndexOf(t.buckets[i], ip)].ip == ip;
    }
  }

  /** Every stored address is found in the view: none hides in a foreign bucket. */
  lemma KeysAreMapped(t: Table)
    requires Ok(t)
    ensures View(t).Keys == Keys(t)
  {
    forall ip | ip in Keys(t) ensures ip in View(t) {
      var i, k :| 0 <= i < |t.buckets| && 0 <= k < |t.buckets[i]| && t.buckets[i][k].ip != 0 && ip == t.buckets[i][k].ip;
      assert BucketOk(t.buckets[i], i, |t.buckets|);
    }
  }

  /** Only the bucket of ip differs: addresses of other buckets are mapped as before. */
  lemma ViewOf(t: Table, t': Table, ip: nat, b: Bucket, q: nat)
    requires t.buckets != [] && t'.buckets == t.buckets[BucketOf(t, ip) := b]
    ensures Lookup(t', q) == if BucketOf(t, q) == BucketOf(t, ip) then Found(b, q) else Lookup(t, q)
    ensures q in View(t') <==> Lookup(t', q).Some?
    ensures q in View(t') ==> View(t')[q] == Lookup(t', q).value
    ensures q in View(t) <==> Lookup(t, q).Some?
    ensures q in View(t) ==> View(t)[q] == Lookup(t, q).value
  {
    ViewLookup(t, q);
    ViewLookup(t', q);
  }

  lemma Replaced(t: Table, ip: nat, b: Bucket)
    requires Ok(t) && BucketOk(b, BucketOf(t, ip), |t.buckets|)
    ensures Ok(Table(t.size, t.buckets[BucketOf(t, ip) := b]))
  {
    var u := t.buckets[BucketOf(t, ip) := b];
    forall i | 0 <= i < |u| ensures BucketOk(u[i], i, |u|) {
      assert i != BucketOf(t, ip) ==> BucketOk(t.buckets[i], i, |t.buckets|);
    }
  }

  // ----- Put -----

  /** The address whose MAC a put sets: ip if it is new, and otherwise the head's. */
  function Target(b: Bucket, ip: nat): nat
    requires b != []
  {
    if Adds(b, ip) then ip else b[0].ip
  }

  lemma PutFinds(b: Bucket, ip: nat, mac: Mac, i: nat, n: nat, q: nat)
    requires 0 < n && BucketOk(b, i, n) && ip != 0 && ip % n == i
    ensures BucketOk(PutBucket(b, ip, mac), i, n)
    ensures Found(PutBucket(b, ip, mac), q) == if q == Target(b, ip) then Some(mac) else Found(b, q)
  {
    var r := PutBucket(b, ip, mac);
    assert r[0].ip == (if b[0].ip == 0 then ip else b[0].ip);
    if b[0].ip != 0 && IndexOf(b, ip) == |b| {
      assert forall k :: 1 <= k < |b| ==> r[k + 1] == b[k];
      assert forall k :: 2 <= k < |r| ==> r[k] == b[k - 1];
      assert r[1].ip == ip;
    } else {
      assert |r| == |b| && forall k :: 1 <= k < |b| ==> r[k] == b[k];
    }
  }

  /** At q, the map w is m with v put at k. */
  ghost predicate PutAt(m: map<nat, Mac>, w: map<nat, Mac>, k: nat, v: Mac, q: nat) {
    (q in w <==> q in m || q == k) && (q in w ==> w[q] == if q == k then v else m[q])
  }

  lemma PutEverywhere(m: map<nat, Mac>, w: map<nat, Mac>, k: nat, v: Mac)
    requires forall q :: PutAt(m, w, k, v, q)
    ensures w == m[k := v]
  {
    forall q: nat
      ensures q in w <==> q in m[k := v]
      ensures q in w ==> w[q] == m[k := v][q]
    {
      assert PutAt(m, w, k, v, q);
    }
  }

  /** At q, the map w is m without k. */
  ghost predicate DropAt(m: map<nat, Mac>, w: map<nat, Mac>, k: nat, q: nat) {
    (q in w <==> q in m && q != k) && (q in w ==> w[q] == m[q])
  }

  lemma DropEverywhere(m: map<nat, Mac>, w: map<nat, Mac>, k: nat)
    requires forall q :: DropAt(m, w, k, q)
    ensures w == m - {k}
  {
    forall q: nat
      ensures q in w <==> q in m - {k}
      ensures q in w ==> w[q] == (m - {k})[q]
    {
      assert DropAt(m, w, k, q);
    }
  }

  lemma PutMapsAt(t: Table, ip: nat, mac: Mac, q: nat)
    requires Ok(t) && ip != 0
    ensures PutAt(View(t), View(Put(t, ip, mac)), Target(t.buckets[BucketOf(t, ip)], ip), mac, q)
  {
    var i := BucketOf(t, ip);
    var b := t.buckets[i];
    assert BucketOk(b, i, |t.buckets|);
    PutFinds(b, ip, mac, i, |t.buckets|, q);
    ViewOf(t, Put(t, ip, mac), ip, PutBucket(b, ip, mac), q);
    assert q == Target(b, ip) ==> BucketOf(t, q) == i;
  }

  /** A put adds an entry exactly for an unmapped address. */
  lemma PutAdds(t: Table, ip: nat, mac: Mac)
    requires Ok(t) && ip != 0
    ensures Ok(Put(t, ip, mac))
    ensures Adds(t.buckets[BucketOf(t, ip)], ip) <==> ip !in View(t)
  {
    var i := BucketOf(t, ip);
    var b := t.buckets[i];
    assert BucketOk(b, i, |t.buckets|);
    PutFinds(b, ip, mac, i, |t.buckets|, ip);
    Replaced(t, ip, PutBucket(b, ip, mac));
    OkIgnoresSize(t.buckets[i := PutBucket(b, ip, mac)], t.size, Put(t, ip, mac).size);
    ViewLookup(t, ip);
  }

  /** What hash_put really writes, for every table and every nonzero address: an address that
      is already in a chain gives its MAC to the bucket's head. */
  lemma PutMaps(t: Table, ip: nat, mac: Mac)
    requires Ok(t) && ip != 0
    ensures
      var head := t.buckets[BucketOf(t, ip)][0].ip;
      View(Put(t, ip, mac)) == View(t)[if ip in View(t) then head else ip := mac]
  {
    PutAdds(t, ip, mac);
    var m, w, k := View(t), View(Put(t, ip, mac)), Target(t.buckets[BucketOf(t, ip)], ip);
    forall q ensures PutAt(m, w, k, mac, q) {
      PutMapsAt(t, ip, mac, q);
    }
    PutEverywhere(m, w, k, mac);
  }

  lemma OkIgnoresSize(buckets: seq<Bucket>, size: int, size': int)
    requires Ok(Table(size, buckets))
    ensures Ok(Table(size', buckets))
  {
    assert forall i {:trigger buckets[i]} :: 0 <= i < |buckets| ==> BucketOk(Table(size, buckets).buckets[i], i, |buckets|);
  }

  /** The address is new, heads its bucket, or has this MAC already, as the head does. */
  predicate IsUpdate(t: Table, ip: nat, mac: Mac)
    requires HasHeads(t)
  {
    var head := t.buckets[BucketOf(t, ip)][0].ip;
    ip !in View(t) || head == ip || (View(t)[ip] == mac && head in View(t) && View(t)[head] == mac)
  }

  /** hash_put is a map update exactly when the address is new, is its bucket's head, or
      both it and the head already have this MAC. */
  lemma PutUpdates(t: Table, ip: nat, mac: Mac)
    requires Ok(t) && ip != 0
    ensures View(Put(t, ip, mac)) == View(t)[ip := mac] <==> IsUpdate(t, ip, mac)
  {
    PutMaps(t, ip, mac);
    var head := t.buckets[BucketOf(t, ip)][0].ip;
    assert BucketOk(t.buckets[BucketOf(t, ip)], BucketOf(t, ip), |t.buckets|);
    if ip in View(t) && head != ip {
      ViewLookup(t, ip);
      ViewLookup(t, head);
      SameUpdate(View(t), ip, head, mac);
    }
  }

  lemma SameUpdate(m: map<nat, Mac>, k: nat, k': nat, v: Mac)
    requires k in m && k' in m && k != k'
    ensures m[k := v] == m[k' := v] <==> m[k] == v && m[k'] == v
  {
    assert m[k' := v][k] == m[k] && m[k := v][k'] == m[k'];
    if m[k] == v && m[k'] == v { assert m[k := v] == m == m[k' := v]; }
  }

  lemma HeadIsMapped(t: Table, ip: nat)
    requires Ok(t) && ip in View(t)
    ensures t.buckets[BucketOf(t, ip)][0].ip in View(t)
  {
    var i := BucketOf(t, ip);
    var b := t.buckets[i];
    assert BucketOk(b, i, |t.buckets|);
    ViewLookup(t, ip);
    ViewLookup(t, b[0].ip);
  }

  /** A put of a nonzero address keeps size equal to the number of mapped addresses. */
  lemma PutSound(t: Table, ip: nat, mac: Mac)
    requires Sound(t) && ip != 0
    ensures Sound(Put(t, ip, mac))
  {
    PutMaps(t, ip, mac);
    PutAdds(t, ip, mac);
    if ip in View(t) {
      var head := t.buckets[BucketOf(t, ip)][0].ip;
      HeadIsMapped(t, ip);
      SameKeys(View(t), View(t)[head := mac]);
    }
  }

  lemma SameKeys(m: map<nat, Mac>, w: map<nat, Mac>)
    requires m.Keys == w.Keys
    ensures |m| == |w|
  {
    assert |m| == |m.Keys| && |w| == |w.Keys|;
  }

  lemma PutZeroFinds(b: Bucket, mac: Mac, i: nat, n: nat, q: nat)
    requires 0 < n && BucketOk(b, i, n)
    ensures Adds(b, 0) && Found(PutBucket(b, 0, mac), q) == Found(b, q)
  {
    var r := PutBucket(b, 0, mac);
    if b[0].ip == 0 {
      assert r == [Entry(0, mac)];
    } else {
      PutZeroShifts(b, r, q);
    }
  }

  lemma PutZeroShifts(b: Bucket, r: Bucket, q: nat)
    requires b != [] && |r| == |b| + 1 && r[0] == b[0] && r[1].ip == 0 && r[2..] == b[1..]
    ensures Found(r, q) == Found(b, q)
  {
    assert forall k :: 2 <= k < |r| ==> r[k] == r[2..][k - 2] == b[k - 1];
    assert forall k :: 1 <= k < |b| ==> b[k] == b[1..][k - 1] == r[k + 1];
    var j, k := IndexOf(b, q), IndexOf(r, q);
    if q != 0 && j < |b| && j > 0 { assert r[j + 1] == b[j]; }
    if q != 0 && k < |r| && k > 1 { assert b[k - 1] == r[k]; }
  }

  /** Address 0 is stored without being mapped, so size stops counting the map. */
  lemma PutZeroMiscounts(t: Table, mac: Mac)
    requires Sound(t)
    ensures View(Put(t, 0, mac)) == View(t) && Put(t, 0, mac).size == |View(t)| + 1
  {
    var i := BucketOf(t, 0);
    var b := t.buckets[i];
    assert BucketOk(b, i, |t.buckets|);
    ViewLookup(t, 0);
    var m, w := View(t), View(Put(t, 0, mac));
    PutZeroFinds(b, mac, i, |t.buckets|, 0);
    forall q ensures DropAt(m, w, 0, q) {
      PutZeroFinds(b, mac, i, |t.buckets|, q);
      ViewOf(t, Put(t, 0, mac), 0, PutBucket(b, 0, mac), q);
    }
    DropEverywhere(m, w, 0);
    assert m - {0} == m;
  }

  // ----- Remove -----

  lemma RemovedAt(b: Bucket, k: nat, r: Bucket)
    requires k < |b| && r == b[..k] + b[k + 1..]
    ensures |r| == |b| - 1 && forall j :: 0 <= j < |r| ==> r[j] == if j < k then b[j] else b[j + 1]
  {
  }

  lemma RemovedDistinct(b: Bucket, k: nat, r: Bucket)
    requires k < |b| && r == b[..k] + b[k + 1..] && forall i, j :: 0 <= i < j < |b| ==> b[i].ip != b[j].ip
    ensures forall i, j :: 0 <= i < j < |r| ==> r[i].ip != r[j].ip
  {
    RemovedAt(b, k, r);
  }

  lemma RemovedBelong(b: Bucket, k: nat, r: Bucket, i: nat, n: nat)
    requires 0 < n && k < |b| && r == b[..k] + b[k + 1..]
    requires forall j :: 0 <= j < |b| ==> b[j].ip != 0 && b[j].ip % n == i
    ensures forall j :: 0 <= j < |r| ==> r[j].ip != 0 && r[j].ip % n == i
  {
    RemovedAt(b, k, r);
  }

  lemma RemoveKeepsOk(b: Bucket, ip: nat, i: nat, n: nat)
    requires 0 < n && BucketOk(b, i, n)
    ensures BucketOk(RemoveBucket(b, ip), i, n)
  {
    if Drops(b, ip) && |b| > 1 {
      RemovedDistinct(b, IndexOf(b, ip), RemoveBucket(b, ip));
      RemovedBelong(b, IndexOf(b, ip), RemoveBucket(b, ip), i, n);
    }
  }

  /** An address elsewhere in the bucket stays where it is, or moves one place up. */
  lemma IndexAfterRemove(b: Bucket, k: nat, r: Bucket, q: nat)
    requires k < |b| && r == b[..k] + b[k + 1..] && forall i, j :: 0 <= i < j < |b| ==> b[i].ip != b[j].ip
    ensures q == b[k].ip ==> IndexOf(r, q) == |r|
    ensures q != b[k].ip ==> IndexOf(r, q) == if IndexOf(b, q) < k then IndexOf(b, q) else IndexOf(b, q) - 1
  {
    RemovedAt(b, k, r);
    var p, o := IndexOf(b, q), IndexOf(r, q);
    assert p < |b| && p < k ==> r[p] == b[p];
    assert p < |b| && k < p ==> r[p - 1] == b[p];
    assert o < |r| ==> r[o] == if o < k then b[o] else b[o + 1];
  }

  lemma RemovedFinds(b: Bucket, k: nat, r: Bucket, ip: nat, q: nat)
    requires k < |b| && r == b[..k] + b[k + 1..] && b[k].ip == ip
    requires forall i, j :: 0 <= i < j < |b| ==> b[i].ip != b[j].ip
    ensures Found(r, q) == if q == ip then None else Found(b, q)
  {
    IndexAfterRemove(b, k, r, q);
    RemovedAt(b, k, r);
  }

  lemma RemoveFinds(b: Bucket, ip: nat, i: nat, n: nat, q: nat)
    requires 0 < n && BucketOk(b, i, n)
    ensures BucketOk(RemoveBucket(b, ip), i, n)
    ensures Found(RemoveBucket(b, ip), q) == if q == ip then None else Found(b, q)
    ensures Drops(b, ip) <==> Found(b, ip).Some?
  {
    assert BucketOk(RemoveBucket(b, ip), i, n) by { RemoveKeepsOk(b, ip, i, n); }
    var k := IndexOf(b, ip);
    if Drops(b, ip) && |b| > 1 {
      RemovedFinds(b, k, RemoveBucket(b, ip), ip, q);
    } else if Drops(b, ip) {
      OneEntry(b, ip, q);
    }
  }

  lemma OneEntry(b: Bucket, ip: nat, q: nat)
    requires |b| == 1 && ip != 0 && IndexOf(b, ip) == 0
    ensures Found([Entry(0, NO_MAC)], q) == None && Found(b, q) == if q == ip then Some(b[0].mac) else None
  {
    assert [Entry(0, NO_MAC)][1..] == [] && b[1..] == [];
  }

  lemma RemoveDeletesAt(t: Table, ip: nat, q: nat)
    requires Ok(t)
    ensures DropAt(View(t), View(Remove(t, ip)), ip, q)
  {
    var i := BucketOf(t, ip);
    var b := t.buckets[i];
    assert BucketOk(b, i, |t.buckets|);
    RemoveFinds(b, ip, i, |t.buckets|, q);
    ViewOf(t, Remove(t, ip), ip, RemoveBucket(b, ip), q);
  }

  lemma RemoveDrops(t: Table, ip: nat)
    requires Ok(t)
    ensures Ok(Remove(t, ip)) && (Drops(t.buckets[BucketOf(t, ip)], ip) <==> ip in View(t))
  {
    var i := BucketOf(t, ip);
    var b := t.buckets[i];
    assert BucketOk(b, i, |t.buckets|);
    RemoveFinds(b, ip, i, |t.buckets|, ip);
    Replaced(t, ip, RemoveBucket(b, ip));
    OkIgnoresSize(t.buckets[i := RemoveBucket(b, ip)], t.size, Remove(t, ip).size);
    ViewLookup(t, ip);
  }

  /** hash_remove is map deletion, whether the entry is the head (whose successor is then
      moved into the table), further down, or absent; and size stays the cardinality. */
  lemma RemoveDeletes(t: Table, ip: nat)
    requires Sound(t)
    ensures Sound(Remove(t, ip)) && View(Remove(t, ip)) == View(t) - {ip}
  {
    RemoveDrops(t, ip);
    var m, w := View(t), View(Remove(t, ip));
    forall q ensures DropAt(m, w, ip, q) { RemoveDeletesAt(t, ip, q); }
    DropEverywhere(m, w, ip);
    DropCount(m, ip);
  }

  lemma DropCount(m: map<nat, Mac>, ip: nat)
    ensures |m - {ip}| == |m| - if ip in m then 1 else 0
  {
    assert (m - {ip}).Keys == m.Keys - {ip};
    assert |m - {ip}| == |(m - {ip}).Keys| && |m| == |m.Keys|;
  }

  // ----- Get -----

  lemma {:induction false} GetStops(b: Bucket, ip: nat)
    requires forall k :: 0 <= k < |b| ==> b[k].ip != 0
    ensures GetBucket(b, ip) == if IndexOf(b, ip) < |b| then Mapped(b[IndexOf(b, ip)].mac) else NullRead
  {
    if b != [] && b[0].ip != ip { GetStops(b[1..], ip); }
  }

  /** hash_get answers a mapped address with its MAC, and an unmapped one properly exactly
      when its bucket is empty; otherwise it runs past the end of the chain. */
  lemma GetLooksUp(t: Table, ip: nat)
    requires Ok(t)
    ensures ip in View(t) ==> Get(t, ip) == Mapped(View(t)[ip])
    ensures ip !in View(t) ==> (Get(t, ip) == Unknown <==> t.buckets[BucketOf(t, ip)][0].ip == 0)
    ensures Get(t, ip) == NullRead <==> ip !in View(t) && t.buckets[BucketOf(t, ip)][0].ip != 0
  {
    var b := t.buckets[BucketOf(t, ip)];
    assert BucketOk(b, BucketOf(t, ip), |t.buckets|);
    ViewLookup(t, ip);
    if b[0].ip != 0 { GetStops(b, ip); }
  }

  // ----- Runs -----

  datatype Op = PutOp(ip: nat, mac: Mac) | RemoveOp(ip: nat)

  function Empty(n: nat): (t: Table)
    requires 0 < n
    ensures HasHeads(t)
  {
    Table(0, seq(n, i => [Entry(0, NO_MAC)]))
  }

  function Apply(t: Table, op: Op): (r: Table)
    requires HasHeads(t)
    ensures HasHeads(r)
  {
    match op
    case PutOp(ip, mac) => Put(t, ip, mac)
    case RemoveOp(ip) => Remove(t, ip)
  }

  function Run(t: Table, ops: seq<Op>): (r: Table)
    requires HasHeads(t)
    ensures HasHeads(r)
    decreases |ops|
  {
    if ops == [] then t else Run(Apply(t, ops[0]), ops[1..])
  }

  function MapRun(m: map<nat, Mac>, ops: seq<Op>): map<nat, Mac>
    decreases |ops|
  {
    if ops == [] then m
    else match ops[0]
      case PutOp(ip, mac) => MapRun(m[ip := mac], ops[1..])
      case RemoveOp(ip) => MapRun(m - {ip}, ops[1..])
  }

  predicate NonzeroPuts(ops: seq<Op>) {
    forall k :: 0 <= k < |ops| && ops[k].PutOp? ==> ops[k].ip != 0
  }

  /** The condition of PutUpdates holds at every put. */
  predicate Updates(t: Table, ops: seq<Op>)
    requires HasHeads(t)
    decreases |ops|
  {
    ops == [] ||
    (&& (ops[0].PutOp? ==> IsUpdate(t, ops[0].ip, ops[0].mac))
     && Updates(Apply(t, ops[0]), ops[1..]))
  }

  /** Over any run of puts of nonzero addresses and of removes, the buckets stay in order and
      size stays the number of mapped addresses. If moreover every put was an update, the table
      is the map the run describes. */
  lemma {:induction false} RunRefinesMap(t: Table, ops: seq<Op>)
    requires Sound(t) && NonzeroPuts(ops)
    ensures Sound(Run(t, ops))
    ensures Updates(t, ops) ==> View(Run(t, ops)) == MapRun(View(t), ops)
    decreases |ops|
  {
    if ops != [] {
      assert NonzeroPuts(ops[1..]);
      match ops[0] {
        case PutOp(ip, mac) =>
          PutSound(t, ip, mac);
          PutUpdates(t, ip, mac);
        case RemoveOp(ip) => RemoveDeletes(t, ip);
      }
      RunRefinesMap(Apply(t, ops[0]), ops[1..]);
    }
  }

  lemma EmptySound(n: nat)
    requires 0 < n
    ensures Sound(Empty(n)) && View(Empty(n)) == map[]
  {
    var t := Empty(n);
    forall q ensures q !in View(t) { ViewLookup(t, q); }
    assert View(t) == map[];
  }

  lemma PutStep(t: Table, n: nat, ip: nat, mac: Mac, b: Bucket, v: map<nat, Mac>)
    requires Ok(t) && ip != 0 && |t.buckets| == n && t.buckets[ip % n] == b && View(t) == v
    ensures b != [] && Ok(Put(t, ip, mac)) && |Put(t, ip, mac).buckets| == n
    ensures Put(t, ip, mac).buckets[ip % n] == PutBucket(b, ip, mac)
    ensures View(Put(t, ip, mac)) == v[if ip in v then b[0].ip else ip := mac]
  {
    PutMaps(t, ip, mac);
    PutAdds(t, ip, mac);
  }

  lemma TwoInOneBucket(n: nat, a: nat, b: nat, m: Mac)
    requires 0 < n && a % n == b % n && 0 < a && 0 < b && a != b
    ensures var t := Put(Put(Empty(n), a, m), b, m);
      Ok(t) && |t.buckets| == n && t.buckets[b % n] == [Entry(a, m), Entry(b, m)] && View(t) == map[a := m, b := m]
  {
    EmptySound(n);
    PutStep(Empty(n), n, a, m, [Entry(0, NO_MAC)], map[]);
    PutStep(Put(Empty(n), a, m), n, b, m, [Entry(a, m)], map[a := m]);
  }

  /** Storing b again where a heads their common bucket overwrites the MAC of a. */
  lemma SecondPutHitsHead(n: nat, a: nat, b: nat, m: Mac, w: Mac)
    requires 0 < n && a % n == b % n && 0 < a && 0 < b && a != b
    ensures View(Put(Put(Put(Empty(n), a, m), b, m), b, w)) == map[a := w, b := m]
  {
    TwoInOneBucket(n, a, b, m);
    PutStep(Put(Put(Empty(n), a, m), b, m), n, b, w, [Entry(a, m), Entry(b, m)], map[a := m, b := m]);
  }

  /** Looking up b where only a is in their common bucket runs off the chain. */
  lemma MissBehindHead(n: nat, a: nat, b: nat, m: Mac)
    requires 0 < n && a % n == b % n && 0 < a && a != b
    ensures Get(Put(Empty(n), a, m), b) == NullRead
  {
    EmptySound(n);
    PutStep(Empty(n), n, a, m, [Entry(0, NO_MAC)], map[]);
    GetLooksUp(Put(Empty(n), a, m), b);
  }
}
