/** The bounded cache of per-host leaf certificates. */
module LeafStore {
  import opened Findings

  type Key = string

  /** A certificate as far as the cache cares: whom it was signed for, and which signing it was. */
  datatype Cert = Cert(host: Key, serial: nat)

  datatype Entry = Entry(host: Key, cert: Cert)

  // ----- The cache as a list, most recently used first ------------------------------------------------

  function Keys(c: seq<Entry>): seq<Key> {
    seq(|c|, i requires 0 <= i < |c| => c[i].host)
  }

  function Without(c: seq<Entry>, key: Key): seq<Entry> {
    if c == [] then [] else (if c[0].host == key then [] else [c[0]]) + Without(c[1..], key)
  }

  function Find(c: seq<Entry>, key: Key): Option<Cert> {
    if c == [] then None else if c[0].host == key then Some(c[0].cert) else Find(c[1..], key)
  }

  function Take<T>(s: seq<T>, n: int): seq<T> {
    if n <= 0 then [] else if n < |s| then s[..n] else s
  }

  /** A hit moves the entry to the front. */
  function AfterGet(c: seq<Entry>, key: Key): seq<Entry> {
    match Find(c, key)
    case None => c
    case Some(cert) => [Entry(key, cert)] + Without(c, key)
  }

  /** A put brings the entry to the front and evicts from the back. */
  function AfterPut(c: seq<Entry>, capacity: int, key: Key, cert: Cert): seq<Entry> {
    Take([Entry(key, cert)] + Without(c, key), capacity)
  }

  lemma {:induction false} AtIndex(c: seq<Entry>, key: Key, i: nat)
    requires i < |c| && c[i].host == key && Distinct(Keys(c))
    ensures Find(c, key) == Some(c[i].cert) && Without(c, key) == c[..i] + c[i + 1..]
  {
    assert Keys(c)[0] == c[0].host && Keys(c)[i] == key;
    assert c == [c[0]] + c[1..];
    assert Keys(c[1..]) == Keys(c)[1..];
    if i == 0 {
      assert forall j :: 0 <= j < |Keys(c[1..])| ==> Keys(c[1..])[j] == Keys(c)[j + 1];
      NotThere(c[1..], key);
    } else {
      AtIndex(c[1..], key, i - 1);
      assert c[..i] + c[i + 1..] == [c[0]] + (c[1..][..i - 1] + c[1..][i..]);
    }
  }

  lemma {:induction false} NotThere(c: seq<Entry>, key: Key)
    requires key !in Keys(c)
    ensures Find(c, key) == None && Without(c, key) == c
  {
    if c != [] {
      assert Keys(c)[0] == c[0].host;
      assert Keys(c[1..]) == Keys(c)[1..];
      NotThere(c[1..], key);
    }
  }

  ghost predicate Distinct<T>(s: seq<T>) {
    forall i, j :: 0 <= i < j < |s| ==> s[i] != s[j]
  }

  // ----- The map and the list that implement it -------------------------------------------------------

  /** The list has one entry per host, and the map holds exactly those entries under their hosts. */
  ghost predicate Agree(items: map<Key, Entry>, order: seq<Entry>) {
    && Distinct(Keys(order))
    && (forall i :: 0 <= i < |order| ==> order[i].host in items && items[order[i].host] == order[i])
    && (forall k :: k in items ==> k in Keys(order))
  }

  function Bound(capacity: int): nat {
    if capacity <= 0 then 0 else capacity
  }

  lemma LookUp(items: map<Key, Entry>, order: seq<Entry>, key: Key) returns (i: nat)
    requires Agree(items, order) && key in items
    ensures i < |order| && order[i] == items[key] && order[i].host == key
    ensures Find(order, key) == Some(items[key].cert) && Without(order, key) == order[..i] + order[i + 1..]
  {
    var j :| 0 <= j < |Keys(order)| && Keys(order)[j] == key;
    i := j;
    AtIndex(order, key, i);
  }

  lemma Absent(items: map<Key, Entry>, order: seq<Entry>, key: Key)
    requires Agree(items, order) && (key !in items || order == [])
    ensures Find(order, key) == None && Without(order, key) == order
  {
    NotThere(order, key);
  }

  /** Replacing or adding one host at the front keeps map and list in agreement. */
  lemma FrontAgrees(items: map<Key, Entry>, order: seq<Entry>, e: Entry)
    requires Agree(items, order)
    ensures Agree(items[e.host := e], [e] + Without(order, e.host))
  {
    hide Without, Keys, Distinct;
    WithoutMembers(order, e.host);
    var rest := Without(order, e.host);
    var items', order' := items[e.host := e], [e] + rest;
    FrontDistinct(e, rest);
    forall i | 0 <= i < |order'|
      ensures order'[i].host in items' && items'[order'[i].host] == order'[i]
    {
      if i > 0 {
        assert order'[i] == rest[i - 1] && rest[i - 1] in rest;
        var j :| 0 <= j < |order| && order[j] == order'[i];
      }
    }
    forall k | k in items'
      ensures k in Keys(order')
    {
      if k == e.host {
        InKeys(order', 0);
      } else {
        var j := KeyAt(order, k);
        assert order[j] in rest;
        var m :| 0 <= m < |rest| && rest[m] == order[j];
        assert order'[m + 1] == order[j];
        InKeys(order', m + 1);
      }
    }
  }

  lemma FrontDistinct(e: Entry, rest: seq<Entry>)
    requires Distinct(Keys(rest)) && e.host !in Keys(rest)
    ensures Distinct(Keys([e] + rest))
  {
    FrontKeys(e, rest);
  }

  lemma KeyAt(c: seq<Entry>, k: Key) returns (j: nat)
    requires k in Keys(c)
    ensures j < |c| && c[j].host == k
  {
    j :| 0 <= j < |Keys(c)| && Keys(c)[j] == k;
  }

  lemma InKeys(c: seq<Entry>, j: nat)
    requires j < |c|
    ensures c[j].host in Keys(c)
  {
    assert Keys(c)[j] == c[j].host;
  }

  lemma WithoutMembers(c: seq<Entry>, key: Key)
    requires Distinct(Keys(c))
    ensures forall e :: e in Without(c, key) <==> e in c && e.host != key
    ensures Distinct(Keys(Without(c, key))) && key !in Keys(Without(c, key)) && |Without(c, key)| <= |c|
  {
    hide Without;
    if k :| 0 <= k < |c| && c[k].host == key {
      AtIndex(c, key, k);
      var r := c[..k] + c[k + 1..];
      DropIndex(Keys(c), k);
      assert Keys(r) == Keys(c)[..k] + Keys(c)[k + 1..];
      OthersStay(c, k);
    } else {
      NotThere(c, key);
    }
  }

  lemma DropIndex<T>(s: seq<T>, k: nat)
    requires k < |s| && Distinct(s)
    ensures Distinct(s[..k] + s[k + 1..]) && s[k] !in s[..k] + s[k + 1..]
  {
    var r := s[..k] + s[k + 1..];
    assert forall j :: 0 <= j < |r| ==> r[j] == s[if j < k then j else j + 1];
  }

  lemma HostsDiffer(c: seq<Entry>, i: nat, j: nat)
    requires i < |c| && j < |c| && i != j && Distinct(Keys(c))
    ensures c[i].host != c[j].host
  {
    assert Keys(c)[i] == c[i].host && Keys(c)[j] == c[j].host;
  }

  lemma OthersStay(c: seq<Entry>, k: nat)
    requires k < |c| && Distinct(Keys(c))
    ensures forall e :: e in c[..k] + c[k + 1..] <==> e in c && e.host != c[k].host
  {
    hide Distinct, Keys;
    var r := c[..k] + c[k + 1..];
    forall e | e in c && e.host != c[k].host
      ensures e in r
    {
      var j :| 0 <= j < |c| && c[j] == e;
      assert r[if j < k then j else j - 1] == e;
    }
    forall e | e in r
      ensures e in c && e.host != c[k].host
    {
      var j :| 0 <= j < |r| && r[j] == e;
      var j' := if j < k then j else j + 1;
      assert e == c[j'];
      HostsDiffer(c, j', k);
    }
  }

  class Store {
    const capacity: int
    var items: map<Key, Entry>
    var order: seq<Entry>

    constructor (capacity: int)
      ensures this.capacity == capacity && Valid() && order == []
    {
      this.capacity := capacity;
      items, order := map[], [];
    }

    ghost predicate Valid()
      reads this
    {
      Agree(items, order) && |order| <= Bound(capacity)
    }

    method CacheGet(key: Key) returns (cert: Option<Cert>)
      requires Valid()
      modifies this
      ensures Valid()
      ensures cert == Find(old(order), key) && order == AfterGet(old(order), key)
    {
      hide Agree, Without, Find;
      if capacity <= 0 || key !in items {
        Absent(items, order, key);
        return None;
      }
      var e := items[key];
      ghost var i := LookUp(items, order, key);
      FrontAgrees(items, order, e);
      assert items[key := e] == items;
      order := [e] + Without(order, key);
      return Some(e.cert);
    }

    method CachePut(key: Key, cert: Cert)
      requires Valid()
      modifies this
      ensures Valid()
      ensures order == AfterPut(old(order), capacity, key, cert)
    {
      hide Agree, Without;
      if capacity <= 0 {
        return;
      }
      var e := Entry(key, cert);
      FrontAgrees(items, order, e);
      if key in items {
        ghost var i := LookUp(items, order, key);
        order := [e] + Without(order, key);
        items := items[key := e];
        return;
      }
      Absent(items, order, key);
      order := [e] + order;
      items := items[key := e];
      while |order| > capacity
        invariant |order| <= capacity + 1
        invariant Agree(items, order)
        invariant Take(order, capacity) == AfterPut(old(order), capacity, key, cert)
      {
        var oldest := order[|order| - 1];
        DropLastAgrees(items, order);
        order := order[..|order| - 1];
        items := items - {oldest.host};
      }
    }

    /** A leaf certificate for `key`, from the cache or freshly signed; `serial` is the signer's answer,
        absent when signing fails. */
    method LeafFor(key: Key, serial: Option<nat>) returns (cert: Option<Cert>)
      requires Valid()
      modifies this
      ensures Valid()
      ensures order == AfterRequest(old(order), capacity, key, serial)
      ensures cert.None? ==> order == old(order)
      ensures cert == match Find(old(order), key)
                      case Some(c) => Some(c)
                      case None => if serial.Some? then Some(Cert(key, serial.value)) else None
    {
      cert := CacheGet(key);
      if cert.Some? {
        return;
      }
      if serial.None? {
        return None;
      }
      cert := Some(Cert(key, serial.value));
      CachePut(key, cert.value);
    }

    /** The length of the list is the number of hosts cached, within the capacity. */
    method CacheLen() returns (n: nat)
      requires Valid()
      ensures n == |items| && n <= Bound(capacity)
    {
      SameSize(items, order);
      n := |order|;
    }
  }

  lemma DropLastAgrees(items: map<Key, Entry>, order: seq<Entry>)
    requires Agree(items, order) && order != []
    ensures Agree(items - {order[|order| - 1].host}, order[..|order| - 1])
  {
    var n := |order| - 1;
    var last := order[n];
    assert Keys(order[..n]) == Keys(order)[..n];
    assert forall i :: 0 <= i < |order| ==> Keys(order)[i] == order[i].host;
    forall k | k in items - {last.host}
      ensures k in Keys(order[..n])
    {
      var j :| 0 <= j < |Keys(order)| && Keys(order)[j] == k;
      assert Keys(order[..n])[j] == k;
    }
  }

  lemma {:induction false} SameSize(items: map<Key, Entry>, order: seq<Entry>)
    requires Agree(items, order)
    ensures |items| == |order|
    decreases |order|
  {
    hide Keys, Distinct;
    if order == [] {
      NoneAgrees(items);
    } else {
      var n := |order| - 1;
      DropLastAgrees(items, order);
      SameSize(items - {order[n].host}, order[..n]);
      assert (items - {order[n].host}).Keys == items.Keys - {order[n].host};
      assert |items.Keys| == |items|;
    }
  }

  lemma NoneAgrees(items: map<Key, Entry>)
    requires Agree(items, [])
    ensures items == map[]
  {
  }

  function AfterRequest(c: seq<Entry>, capacity: int, key: Key, serial: Option<nat>): seq<Entry> {
    if Find(c, key).Some? then AfterGet(c, key)
    else if serial.None? then c
    else AfterPut(c, capacity, key, Cert(key, serial.value))
  }

  // ----- Least recently used, over every run of requests --------------------------------------------

  function Remove(ks: seq<Key>, key: Key): seq<Key> {
    if ks == [] then [] else (if ks[0] == key then [] else [ks[0]]) + Remove(ks[1..], key)
  }

  /** The distinct keys requested so far, the most recent first. */
  function Recency(requests: seq<Key>): seq<Key> {
    if requests == [] then []
    else
      var key := requests[|requests| - 1];
      [key] + Remove(Recency(requests[..|requests| - 1]), key)
  }

  /** When `key` was last requested, or -1. */
  function LastRequest(requests: seq<Key>, key: Key): int {
    if requests == [] then -1
    else if requests[|requests| - 1] == key then |requests| - 1
    else LastRequest(requests[..|requests| - 1], key)
  }

  lemma {:induction false} RemoveMembers(ks: seq<Key>, key: Key)
    ensures forall x :: x in Remove(ks, key) <==> x in ks && x != key
  {
    if ks != [] {
      RemoveMembers(ks[1..], key);
      assert ks == [ks[0]] + ks[1..];
    }
  }

  ghost predicate Descending(ks: seq<Key>, requests: seq<Key>) {
    forall i, j :: 0 <= i < j < |ks| ==> LastRequest(requests, ks[i]) > LastRequest(requests, ks[j])
  }

  lemma {:induction false} RemoveDescends(ks: seq<Key>, key: Key, requests: seq<Key>)
    requires Descending(ks, requests)
    ensures Descending(Remove(ks, key), requests + [key])
  {
    if ks != [] {
      assert Descending(ks[1..], requests) by {
        assert forall i :: 0 <= i < |ks[1..]| ==> ks[1..][i] == ks[i + 1];
      }
      RemoveDescends(ks[1..], key, requests);
      RemoveMembers(ks[1..], key);
      assert (requests + [key])[..|requests|] == requests;
      var rest, all := Remove(ks[1..], key), Remove(ks, key);
      if ks[0] != key {
        forall j | 0 <= j < |rest|
          ensures LastRequest(requests + [key], ks[0]) > LastRequest(requests + [key], rest[j])
        {
          assert rest[j] in rest;
          var m :| 0 <= m < |ks[1..]| && ks[1..][m] == rest[j];
          assert ks[m + 1] == rest[j];
        }
        assert all == [ks[0]] + rest;
      } else {
        assert all == rest;
      }
    }
  }

  lemma {:induction false} LastRequestBounds(requests: seq<Key>, key: Key)
    ensures -1 <= LastRequest(requests, key) < |requests|
    ensures LastRequest(requests, key) >= 0 <==> key in requests
  {
    if requests != [] {
      LastRequestBounds(requests[..|requests| - 1], key);
      assert requests == requests[..|requests| - 1] + [requests[|requests| - 1]];
    }
  }

  /** Recency lists every requested key once, by falling time of its last request. */
  lemma {:induction false} RecencyIsByLastRequest(requests: seq<Key>)
    ensures Descending(Recency(requests), requests)
    ensures forall x :: x in Recency(requests) <==> x in requests
  {
    if requests != [] {
      var before, key := requests[..|requests| - 1], requests[|requests| - 1];
      RecencyIsByLastRequest(before);
      RemoveDescends(Recency(before), key, before);
      RemoveMembers(Recency(before), key);
      assert requests == before + [key];
      var rest := Remove(Recency(before), key);
      forall j | 0 <= j < |rest|
        ensures LastRequest(requests, key) > LastRequest(requests, rest[j])
      {
        assert rest[j] in rest;
        LastRequestBounds(before, rest[j]);
      }
    }
  }

  lemma DescendingDistinct(ks: seq<Key>, requests: seq<Key>)
    requires Descending(ks, requests)
    ensures Distinct(ks)
  {
  }

  /** Cutting the list before or after moving a key to the front leaves the same first `n + 1`. */
  lemma {:induction false} RemoveThenTake(ks: seq<Key>, key: Key, n: nat)
    requires Distinct(ks)
    ensures Take(Remove(Take(ks, n + 1), key), n) == Take(Remove(ks, key), n)
  {
    hide Distinct;
    if ks != [] && n > 0 {
      var rest := ks[1..];
      RestDistinct(ks);
      TakeCons(ks[0], rest, n + 1);
      assert ks == [ks[0]] + rest;
      assert Take(ks, n + 1)[1..] == Take(rest, n);
      if ks[0] == key {
        RemoveAbsent(rest, key);
        RemoveAbsent(Take(rest, n), key);
      } else {
        RemoveThenTake(rest, key, n - 1);
        TakeCons(ks[0], Remove(Take(rest, n), key), n);
        TakeCons(ks[0], Remove(rest, key), n);
      }
    }
  }

  lemma RestDistinct(ks: seq<Key>)
    requires Distinct(ks) && ks != []
    ensures Distinct(ks[1..]) && ks[0] !in ks[1..]
  {
  }

  lemma {:induction false} RemoveAbsent(ks: seq<Key>, key: Key)
    requires key !in ks
    ensures Remove(ks, key) == ks
  {
    if ks != [] {
      RemoveAbsent(ks[1..], key);
    }
  }

  lemma KeysOfParts(a: seq<Entry>, b: seq<Entry>)
    ensures Keys(a + b) == Keys(a) + Keys(b)
  {
  }

  lemma {:induction false} KeysWithout(c: seq<Entry>, key: Key)
    ensures Keys(Without(c, key)) == Remove(Keys(c), key)
    ensures Find(c, key).Some? <==> key in Keys(c)
  {
    if c != [] {
      KeysWithout(c[1..], key);
      KeysOfParts([c[0]], c[1..]);
      assert c == [c[0]] + c[1..] && Keys([c[0]]) == [c[0].host];
      assert Keys(c)[1..] == Keys(c[1..]);
      KeysOfParts(if c[0].host == key then [] else [c[0]], Without(c[1..], key));
    }
  }

  /** The cache after a run of successful requests. */
  function Cache(capacity: int, requests: seq<Key>, serials: seq<nat>): seq<Entry>
    requires |serials| == |requests|
  {
    if requests == [] then []
    else
      var n := |requests| - 1;
      AfterRequest(Cache(capacity, requests[..n], serials[..n]), capacity, requests[n], Some(serials[n]))
  }

  /** Moving or adding a key at the front of a cache of the most recent keys makes it the most recent. */
  lemma {:induction false} TouchKeys(c: seq<Entry>, capacity: int, touched: seq<Key>, e: Entry)
    requires 0 < capacity && Keys(c) == Take(Recency(touched), capacity)
    ensures var moved, recent := [e] + Without(c, e.host), Take(Recency(touched + [e.host]), capacity);
            Keys(Take(moved, capacity)) == recent && (Find(c, e.host).Some? ==> Keys(moved) == recent)
  {
    hide Keys, Remove, Take, Distinct, Recency, Find, Without;
    var key, ks, moved := e.host, Recency(touched), [e] + Without(c, e.host);
    RecencyIsByLastRequest(touched);
    DescendingDistinct(ks, touched);
    RecencySnoc(touched, key);
    KeysWithout(c, key);
    FrontKeys(e, Without(c, key));
    RemoveThenTake(ks, key, capacity - 1);
    TakeCons(key, Remove(Keys(c), key), capacity);
    TakeCons(key, Remove(ks, key), capacity);
    KeysOfTake(moved, capacity);
    if Find(c, key).Some? {
      FewerWithout(c, key);
      TakeDistinct(c, ks, capacity);
      TakeEnough(moved, capacity);
    }
  }

  lemma RecencySnoc(touched: seq<Key>, key: Key)
    ensures Recency(touched + [key]) == [key] + Remove(Recency(touched), key)
  {
    assert (touched + [key])[..|touched|] == touched;
  }

  lemma FrontKeys(e: Entry, c: seq<Entry>)
    ensures Keys([e] + c) == [e.host] + Keys(c)
  {
  }

  lemma KeysOfTake(c: seq<Entry>, n: int)
    ensures Keys(Take(c, n)) == Take(Keys(c), n)
  {
  }

  lemma TakeEnough<T>(s: seq<T>, n: int)
    requires |s| <= n
    ensures Take(s, n) == s
  {
  }

  lemma {:induction false} FewerWithout(c: seq<Entry>, key: Key)
    requires Find(c, key).Some?
    ensures |Without(c, key)| < |c|
  {
    if c[0].host != key {
      FewerWithout(c[1..], key);
    } else {
      WithoutShrinks(c[1..], key);
    }
  }

  lemma {:induction false} WithoutShrinks(c: seq<Entry>, key: Key)
    ensures |Without(c, key)| <= |c|
  {
    if c != [] {
      WithoutShrinks(c[1..], key);
    }
  }

  /** After any run of successful requests the cache holds exactly the most recently requested distinct
      keys, as many as fit, the most recent first. */
  lemma {:induction false} CacheIsMostRecent(capacity: int, requests: seq<Key>, serials: seq<nat>)
    requires 0 < capacity && |serials| == |requests|
    ensures Keys(Cache(capacity, requests, serials)) == Take(Recency(requests), capacity)
  {
    hide Keys, Take, Distinct, Recency, Find, Without;
    if requests == [] {
      NoKeys(capacity);
    } else {
      var n := |requests| - 1;
      var before, key := requests[..n], requests[n];
      var c := Cache(capacity, before, serials[..n]);
      CacheIsMostRecent(capacity, before, serials[..n]);
      assert requests == before + [key];
      var cert := if Find(c, key).Some? then Find(c, key).value else Cert(key, serials[n]);
      TouchKeys(c, capacity, before, Entry(key, cert));
    }
  }

  lemma NoKeys(capacity: int)
    ensures Keys([]) == Take(Recency([]), capacity)
  {
  }

  lemma TakeDistinct(c: seq<Entry>, ks: seq<Key>, n: int)
    requires 0 < n && Distinct(ks) && Keys(c) == Take(ks, n)
    ensures |c| <= n && Distinct(Keys(c))
  {
    assert |Keys(c)| == |c|;
  }

  lemma TakeCons(key: Key, ks: seq<Key>, capacity: int)
    requires 0 < capacity
    ensures Take([key] + ks, capacity) == [key] + Take(ks, capacity - 1)
  {
  }

  /** A smaller cache's contents are the front of a larger one's. */
  lemma LargerCacheHoldsMore(small: int, large: int, requests: seq<Key>, serials: seq<nat>, serials': seq<nat>)
    requires 0 < small <= large && |serials| == |serials'| == |requests|
    ensures Keys(Cache(small, requests, serials)) <= Keys(Cache(large, requests, serials'))
  {
    CacheIsMostRecent(small, requests, serials);
    CacheIsMostRecent(large, requests, serials');
  }

  // ----- Concurrent requests ------------------------------------------------------------------------

  /** Where a request is: about to look up, missed, holding a fresh certificate, answered, or failed. */
  datatype Stage = Asking | Missed | Holding(cert: Cert) | Answered(cert: Cert) | GaveUp

  datatype Request = Request(key: Key, stage: Stage)

  datatype Shared = Shared(cache: seq<Entry>, requests: seq<Request>)

  /** Request `who` takes its next step; lookup and store each happen under the lock, signing does not. */
  datatype Move = Move(who: nat, serial: Option<nat>)

  function Next(st: Shared, capacity: int, m: Move): Shared {
    if m.who >= |st.requests| then st
    else
      var r := st.requests[m.who];
      match r.stage
      case Asking =>
        (match Find(st.cache, r.key)
         case Some(cert) => Shared(AfterGet(st.cache, r.key), st.requests[m.who := r.(stage := Answered(cert))])
         case None => st.(requests := st.requests[m.who := r.(stage := Missed)]))
      case Missed =>
        var stage := if m.serial.None? then GaveUp else Holding(Cert(r.key, m.serial.value));
        st.(requests := st.requests[m.who := r.(stage := stage)])
      case Holding(cert) =>
        Shared(AfterPut(st.cache, capacity, r.key, cert), st.requests[m.who := r.(stage := Answered(cert))])
      case Answered(_) => st
      case GaveUp => st
  }

  function Interleave(capacity: int, keys: seq<Key>, moves: seq<Move>): Shared {
    if moves == [] then Shared([], seq(|keys|, i requires 0 <= i < |keys| => Request(keys[i], Asking)))
    else Next(Interleave(capacity, keys, moves[..|moves| - 1]), capacity, moves[|moves| - 1])
  }

  ghost predicate Sound(c: seq<Entry>, capacity: int) {
    && |c| <= Bound(capacity)
    && Distinct(Keys(c))
    && forall i :: 0 <= i < |c| ==> c[i].cert.host == c[i].host
  }

  lemma {:induction false} FindSound(c: seq<Entry>, key: Key)
    requires Find(c, key).Some? && forall i :: 0 <= i < |c| ==> c[i].cert.host == c[i].host
    ensures Find(c, key).value.host == key
  {
    if c[0].host != key {
      FindSound(c[1..], key);
    }
  }

  lemma FrontSound(c: seq<Entry>, capacity: int, e: Entry)
    requires Sound(c, capacity) && e.cert.host == e.host
    ensures Sound(Take([e] + Without(c, e.host), capacity), capacity)
    ensures Find(c, e.host).Some? ==> Sound([e] + Without(c, e.host), capacity)
  {
    hide Without, Find;
    WithoutMembers(c, e.host);
    var rest := Without(c, e.host);
    var moved := [e] + rest;
    assert Keys(moved) == [e.host] + Keys(rest);
    forall i | 0 <= i < |moved|
      ensures moved[i].cert.host == moved[i].host
    {
      if i > 0 {
        assert moved[i] in rest;
      }
    }
    if Find(c, e.host).Some? {
      FewerWithout(c, e.host);
    }
    assert Keys(Take(moved, capacity)) == Take(Keys(moved), capacity);
  }

  /** Under every interleaving the cache stays within bounds with one entry per host, every entry and every
      answer is a certificate signed for the host it is kept or returned for. */
  lemma {:induction false} EveryInterleaving(capacity: int, keys: seq<Key>, moves: seq<Move>)
    ensures var st := Interleave(capacity, keys, moves);
            && Sound(st.cache, capacity)
            && |st.requests| == |keys|
            && (forall i :: 0 <= i < |keys| ==> st.requests[i].key == keys[i])
            && (forall i :: 0 <= i < |keys| && (st.requests[i].stage.Holding? || st.requests[i].stage.Answered?) ==>
                  st.requests[i].stage.cert.host == keys[i])
  {
    if moves != [] {
      var before, m := moves[..|moves| - 1], moves[|moves| - 1];
      EveryInterleaving(capacity, keys, before);
      var st := Interleave(capacity, keys, before);
      if m.who < |st.requests| {
        var r := st.requests[m.who];
        if r.stage.Asking? && Find(st.cache, r.key).Some? {
          FindSound(st.cache, r.key);
          FrontSound(st.cache, capacity, Entry(r.key, Find(st.cache, r.key).value));
        } else if r.stage.Holding? {
          FrontSound(st.cache, capacity, Entry(r.key, r.stage.cert));
        }
      }
    }
  }

  /** The key a move uses the cache for: a lookup that hits, or a store. */
  function TouchedBy(st: Shared, m: Move): seq<Key> {
    if m.who >= |st.requests| then []
    else
      var r := st.requests[m.who];
      if r.stage.Holding? || (r.stage.Asking? && Find(st.cache, r.key).Some?) then [r.key] else []
  }

  /** The keys of the lookups that hit and of the stores, in the order in which they happen. */
  function Touched(capacity: int, keys: seq<Key>, moves: seq<Move>): seq<Key> {
    if moves == [] then []
    else
      var before := moves[..|moves| - 1];
      Touched(capacity, keys, before) + TouchedBy(Interleave(capacity, keys, before), moves[|moves| - 1])
  }

  /** Under every interleaving, failed signings included, the cache holds exactly the most recently used
      distinct keys, as many as fit, the most recent first. */
  lemma {:induction false} EveryInterleavingIsMostRecent(capacity: int, keys: seq<Key>, moves: seq<Move>)
    requires 0 < capacity
    ensures Keys(Interleave(capacity, keys, moves).cache) == Take(Recency(Touched(capacity, keys, moves)), capacity)
  {
    hide Keys, Take, Recency, Find, Without;
    if moves == [] {
      NoKeys(capacity);
    } else {
      var before, m := moves[..|moves| - 1], moves[|moves| - 1];
      EveryInterleavingIsMostRecent(capacity, keys, before);
      MoveKeepsRecency(Interleave(capacity, keys, before), capacity, Touched(capacity, keys, before), m);
    }
  }

  lemma MoveKeepsRecency(st: Shared, capacity: int, touched: seq<Key>, m: Move)
    requires 0 < capacity && Keys(st.cache) == Take(Recency(touched), capacity)
    ensures Keys(Next(st, capacity, m).cache) == Take(Recency(touched + TouchedBy(st, m)), capacity)
  {
    hide Keys, Take, Recency, Find, Without;
    assert touched + [] == touched;
    if m.who < |st.requests| {
      var r := st.requests[m.who];
      if r.stage.Holding? {
        TouchKeys(st.cache, capacity, touched, Entry(r.key, r.stage.cert));
      } else if Find(st.cache, r.key).Some? {
        TouchKeys(st.cache, capacity, touched, Entry(r.key, Find(st.cache, r.key).value));
      }
    }
  }

  // ----- Which certificate is cached ------------------------------------------------------------------

  lemma {:induction false} FindWithout(c: seq<Entry>, key: Key, k: Key)
    ensures Find(Without(c, key), k) == if k == key then None else Find(c, k)
  {
    if c != [] {
      FindWithout(c[1..], key, k);
      var rest := Without(c[1..], key);
      if c[0].host != key {
        assert ([c[0]] + rest)[1..] == rest;
      } else {
        assert [] + rest == rest;
      }
    }
  }

  lemma {:induction false} FindInTake(c: seq<Entry>, n: int, k: Key)
    ensures Find(Take(c, n), k) == None || Find(Take(c, n), k) == Find(c, k)
  {
    if c != [] && n > 0 {
      FindInTake(c[1..], n - 1, k);
      assert Take(c, n)[1..] == Take(c[1..], n - 1);
    }
  }

  lemma FindInFront(e: Entry, c: seq<Entry>, k: Key)
    ensures Find([e] + c, k) == if k == e.host then Some(e.cert) else Find(c, k)
  {
    assert ([e] + c)[1..] == c;
  }

  /** A hit changes no answer. */
  lemma LookupAfterGet(c: seq<Entry>, key: Key, k: Key)
    ensures Find(AfterGet(c, key), k) == Find(c, k)
  {
    hide Find, Without;
    FindWithout(c, key, k);
    if Find(c, key).Some? {
      FindInFront(Entry(key, Find(c, key).value), Without(c, key), k);
    }
  }

  /** After a store the host's certificate is the one stored, also where another was cached; for every other
      host it is the one from before, or the host was evicted. */
  lemma LookupAfterPut(c: seq<Entry>, capacity: int, key: Key, cert: Cert, k: Key)
    ensures capacity > 0 ==> Find(AfterPut(c, capacity, key, cert), key) == Some(cert)
    ensures var found := Find(AfterPut(c, capacity, key, cert), k);
            k != key ==> found == None || found == Find(c, k)
  {
    var e, rest := Entry(key, cert), Without(c, key);
    FindWithout(c, key, k);
    FindInFront(e, rest, k);
    FindInTake([e] + rest, capacity, k);
    if capacity > 0 {
      assert Take([e] + rest, capacity)[0] == e;
    }
  }

  /** The certificate a move stores for `key`. */
  function StoredBy(st: Shared, m: Move, key: Key): Option<Cert> {
    if m.who < |st.requests| && st.requests[m.who].key == key && st.requests[m.who].stage.Holding?
    then Some(st.requests[m.who].stage.cert) else None
  }

  /** The certificate stored last for `key`. */
  function LastStored(capacity: int, keys: seq<Key>, moves: seq<Move>, key: Key): Option<Cert> {
    if moves == [] then None
    else
      var before := moves[..|moves| - 1];
      var now := StoredBy(Interleave(capacity, keys, before), moves[|moves| - 1], key);
      if now.Some? then now else LastStored(capacity, keys, before, key)
  }

  lemma {:induction false} CachedWasStoredLast(capacity: int, keys: seq<Key>, moves: seq<Move>, key: Key)
    ensures var cert := Find(Interleave(capacity, keys, moves).cache, key);
            cert == None || cert == LastStored(capacity, keys, moves, key)
  {
    hide Find, AfterGet, AfterPut;
    if moves == [] {
      NothingFound(key);
    } else {
      var before, m := moves[..|moves| - 1], moves[|moves| - 1];
      CachedWasStoredLast(capacity, keys, before, key);
      var st := Interleave(capacity, keys, before);
      if m.who < |st.requests| {
        var r := st.requests[m.who];
        LookupAfterGet(st.cache, r.key, key);
        if r.stage.Holding? {
          LookupAfterPut(st.cache, capacity, r.key, r.stage.cert, key);
          NothingFits(st.cache, capacity, r.key, r.stage.cert, key);
        }
      }
    }
  }

  lemma NothingFound(key: Key)
    ensures Find([], key) == None
  {
  }

  lemma NothingFits(c: seq<Entry>, capacity: int, key: Key, cert: Cert, k: Key)
    ensures capacity <= 0 ==> Find(AfterPut(c, capacity, key, cert), k) == None
  {
  }

  /** Under every interleaving the cache answers for exactly the most recently used hosts that fit, and with
      the certificate stored last for the host. */
  lemma CacheAnswers(capacity: int, keys: seq<Key>, moves: seq<Move>, key: Key)
    requires 0 < capacity
    ensures Find(Interleave(capacity, keys, moves).cache, key)
            == if key in Take(Recency(Touched(capacity, keys, moves)), capacity)
               then LastStored(capacity, keys, moves, key) else None
  {
    hide Find, Keys, Take, Recency, Interleave, LastStored, Touched;
    CachedWasStoredLast(capacity, keys, moves, key);
    EveryInterleavingIsMostRecent(capacity, keys, moves);
    KeysWithout(Interleave(capacity, keys, moves).cache, key);
  }

  /** A request that runs alone does in its steps what one call does, to the cache and in its answer. */
  lemma SoloRequest(c: seq<Entry>, capacity: int, key: Key, serial: Option<nat>)
    ensures var m, st := Move(0, serial), Shared(c, [Request(key, Asking)]);
            var end := Next(Next(Next(st, capacity, m), capacity, m), capacity, m);
            && end.cache == AfterRequest(c, capacity, key, serial)
            && |end.requests| == 1
            && end.requests[0].stage == match Find(c, key)
                                        case Some(cert) => Answered(cert)
                                        case None =>
                                          if serial.Some? then Answered(Cert(key, serial.value)) else GaveUp
  {
    hide Find, AfterGet, AfterPut;
  }
}
