/** The result cache of cache.go: a forward index from IP address to cached
    answer and a reverse index from ASN to the set of addresses cached under
    it. Time is an integer clock reading in seconds, passed in by the caller. */
module Cache {

  /** cacheTTL: an entry is due 24 hours after it was stored. */
  const CacheTTL: int := 24 * 60 * 60

  /** cacheEntry: the ASN, its description and the due date. */
  datatype CacheEntry = CacheEntry(asn: string, descr: string, due: int)

  type Forward = map<string, CacheEntry>
  type Reverse = map<string, set<string>>

  /** The answer of lookupByIP: ASN, description, whether the entry is past its
      due date, and whether the address was cached at all. */
  datatype Probe = Probe(asn: string, descr: string, expired: bool, found: bool)

  /** The two indices agree: an address sits in the bucket of ASN a exactly when
      its forward entry has ASN a, and no bucket is empty. */
  ghost predicate Consistent(fwd: Forward, rev: Reverse)
  {
    && (forall ip | ip in fwd :: fwd[ip].asn in rev && ip in rev[fwd[ip].asn])
    && (forall a, ip | a in rev && ip in rev[a] :: ip in fwd && fwd[ip].asn == a)
    && (forall a | a in rev :: rev[a] != {})
  }

  // ---------------------------------------------------------------------
  // The state changes, as functions of the old indices

  /** The first loop of store: the address leaves every bucket. */
  function Detach(rev: Reverse, ip: string): Reverse
  {
    map a | a in rev :: rev[a] - {ip}
  }

  /** The second loop of store: empty buckets are dropped. */
  function Prune(rev: Reverse): Reverse
  {
    map a | a in rev && rev[a] != {} :: rev[a]
  }

  /** The bucket of an ASN, empty when the ASN has none. */
  function BucketOf(rev: Reverse, a: string): set<string>
  {
    if a in rev then rev[a] else {}
  }

  /** store on the reverse index: detach, prune, then add to the new bucket. */
  function StoreReverse(rev: Reverse, ip: string, a: string): Reverse
  {
    var pruned := Prune(Detach(rev, ip));
    pruned[a := BucketOf(pruned, a) + {ip}]
  }

  /** store on the forward index: the entry for ip, due one TTL after now. */
  function StoreForward(fwd: Forward, ip: string, a: string, descr: string, now: int): Forward
  {
    fwd[ip := CacheEntry(a, descr, now + CacheTTL)]
  }

  /** purgeASN on the forward index: every entry with ASN a goes. */
  function PurgeForward(fwd: Forward, a: string): Forward
  {
    map ip | ip in fwd && fwd[ip].asn != a :: fwd[ip]
  }

  /** lookupByIP on a forward index. Expiry is a strict "after the due date". */
  function Lookup(fwd: Forward, ip: string, now: int): Probe
  {
    if ip in fwd then Probe(fwd[ip].asn, fwd[ip].descr, now > fwd[ip].due, true)
    else Probe("", "", false, false)
  }

  // ---------------------------------------------------------------------
  // Properties of the state changes

  /** store keeps the two indices consistent. */
  lemma StorePreservesConsistency(fwd: Forward, rev: Reverse, ip: string, a: string, descr: string, now: int)
    requires Consistent(fwd, rev)
    ensures Consistent(StoreForward(fwd, ip, a, descr, now), StoreReverse(rev, ip, a))
  {
    var fwd', rev' := StoreForward(fwd, ip, a, descr, now), StoreReverse(rev, ip, a);
    var pruned := Prune(Detach(rev, ip));
    forall x | x in fwd' ensures fwd'[x].asn in rev' && x in rev'[fwd'[x].asn] {
      if x != ip {
        var b := fwd[x].asn;
        assert x in rev[b] - {ip};
        assert b in pruned;
      }
    }
    forall b, x | b in rev' && x in rev'[b] ensures x in fwd' && fwd'[x].asn == b {
      if x != ip {
        assert b in rev && x in rev[b];
      }
    }
  }

  /** A lookup after store at time t answers what was stored, expired exactly
      when the lookup time is after t + TTL. */
  lemma LookupAfterStore(fwd: Forward, ip: string, a: string, descr: string, t: int, t': int)
    ensures Lookup(StoreForward(fwd, ip, a, descr, t), ip, t') == Probe(a, descr, t' > t + CacheTTL, true)
  {
  }

  /** store touches only the forward entry of its own address. */
  lemma StoreLeavesOtherAddresses(fwd: Forward, ip: string, a: string, descr: string, t: int, other: string, t': int)
    requires other != ip
    ensures Lookup(StoreForward(fwd, ip, a, descr, t), other, t') == Lookup(fwd, other, t')
  {
  }

  /** After store, the address is in the bucket of its new ASN and in no other;
      every other bucket keeps its other members. */
  lemma StoreBuckets(rev: Reverse, ip: string, a: string, b: string)
    ensures ip in BucketOf(StoreReverse(rev, ip, a), a)
    ensures b != a ==> BucketOf(StoreReverse(rev, ip, a), b) == BucketOf(rev, b) - {ip}
    ensures b == a ==> BucketOf(StoreReverse(rev, ip, a), b) == BucketOf(rev, b) + {ip}
  {
  }

  /** Re-storing an address under a new ASN takes it out of its old bucket: the
      bucket shrinks by one, and disappears when the address was its only member. */
  lemma RestoreLeavesOldBucket(fwd: Forward, rev: Reverse, ip: string, a: string)
    requires Consistent(fwd, rev)
    requires ip in fwd && fwd[ip].asn != a
    ensures var old_ := fwd[ip].asn; var rev' := StoreReverse(rev, ip, a);
      && ip !in BucketOf(rev', old_)
      && (old_ in rev' <==> rev[old_] != {ip})
      && |BucketOf(rev', old_)| == |rev[old_]| - 1
  {
    var b := fwd[ip].asn;
    StoreBuckets(rev, ip, a, b);
  }

  /** Two different addresses stored under one ASN into an empty cache make up
      exactly that ASN's bucket. */
  lemma TwoAddressesOneBucket(ip1: string, ip2: string, a: string)
    requires ip1 != ip2
    ensures BucketOf(StoreReverse(StoreReverse(map[], ip1, a), ip2, a), a) == {ip1, ip2}
  {
    StoreBuckets(map[], ip1, a, a);
    StoreBuckets(StoreReverse(map[], ip1, a), ip2, a, a);
  }

  /** One address stored into an empty cache: its ASN is the only bucket, and
      the address is the bucket's only member. */
  lemma StoreIntoEmpty(ip: string, a: string)
    ensures StoreReverse(map[], ip, a).Keys == {a}
    ensures BucketOf(StoreReverse(map[], ip, a), a) == {ip}
  {
    assert Prune(Detach(map[], ip)) == map[];
  }

  /** purgeASN keeps the indices consistent, leaves no entry with that ASN and
      no bucket for it, keeps everything of the other ASNs, and makes every
      address that was under that ASN miss. */
  lemma PurgePreservesConsistency(fwd: Forward, rev: Reverse, a: string)
    requires Consistent(fwd, rev)
    ensures Consistent(PurgeForward(fwd, a), rev - {a})
    ensures forall ip | ip in PurgeForward(fwd, a) :: PurgeForward(fwd, a)[ip].asn != a
    ensures forall ip, t | ip in fwd && fwd[ip].asn == a :: !Lookup(PurgeForward(fwd, a), ip, t).found
    ensures forall ip, t | ip in fwd && fwd[ip].asn != a :: Lookup(PurgeForward(fwd, a), ip, t) == Lookup(fwd, ip, t)
    ensures forall b | b != a :: BucketOf(rev - {a}, b) == BucketOf(rev, b)
  {
  }

  /** The reverse index answers what a scan of the forward index would. */
  lemma BucketIsScan(fwd: Forward, rev: Reverse, a: string)
    requires Consistent(fwd, rev)
    ensures forall ip :: ip in BucketOf(rev, a) <==> ip in fwd && fwd[ip].asn == a
  {
  }

  // ---------------------------------------------------------------------
  // Listing a set

  /** Fills a slice of the set's size with its members, by an index counter.
      Each member appears exactly once; the order is the map iteration order,
      which the model leaves open. */
  method Enumerate(s: set<string>) returns (list: seq<string>)
    ensures |list| == |s|
    ensures forall x :: x in list <==> x in s
    ensures forall i, j | 0 <= i < j < |list| :: list[i] != list[j]
  {
    var answer := new string[|s|];
    var i := 0;
    var rest := s;
    while rest != {}
      invariant rest <= s
      invariant i + |rest| == |s|
      invariant forall k | 0 <= k < i :: answer[k] in s && answer[k] !in rest
      invariant forall x | x in s && x !in rest :: x in answer[..i]
      invariant forall k, l | 0 <= k < l < i :: answer[k] != answer[l]
      decreases rest
    {
      var x :| x in rest;
      ghost var before := answer[..i];
      answer[i] := x;
      assert answer[..i + 1] == before + [x];
      i := i + 1;
      rest := rest - {x};
    }
    list := answer[..];
    assert list == answer[..i];
  }

  // ---------------------------------------------------------------------
  // The cache object

  class Cache {
    /** IP to ASN data. */
    var ip: Forward
    /** ASN to IP set. */
    var asn: Reverse

    ghost predicate Valid()
      reads this
    {
      Consistent(ip, asn)
    }

    /** newCache: both indices empty. */
    constructor ()
      ensures Valid() && ip == map[] && asn == map[]
    {
      ip := map[];
      asn := map[];
    }

    /** store: overwrite the entry of addr, due one TTL after now, and move addr
        into the bucket of a. */
    method Store(addr: string, a: string, descr: string, now: int)
      requires Valid()
      modifies this
      ensures Valid()
      ensures ip == StoreForward(old(ip), addr, a, descr, now)
      ensures asn == StoreReverse(old(asn), addr, a)
    {
      // Purge the ASN map of the address, then of empty buckets.
      DetachAddress(addr);
      PruneEmptyBuckets();
      // Update the IP map, then the ASN map.
      ip := ip[addr := CacheEntry(a, descr, now + CacheTTL)];
      if a !in asn {
        asn := asn[a := {}];
      }
      asn := asn[a := asn[a] + {addr}];
      StorePreservesConsistency(old(ip), old(asn), addr, a, descr, now);
    }

    /** The first loop of store: delete addr from every bucket. */
    method DetachAddress(addr: string)
      modifies this`asn
      ensures asn == Detach(old(asn), addr)
    {
      var pending := asn.Keys;
      while pending != {}
        invariant pending <= asn.Keys == old(asn).Keys
        invariant forall k | k in asn :: asn[k] == if k in pending then old(asn)[k] else old(asn)[k] - {addr}
        decreases pending
      {
        var k :| k in pending;
        asn := asn[k := asn[k] - {addr}];
        pending := pending - {k};
      }
    }

    /** The second loop of store: delete every empty bucket. */
    method PruneEmptyBuckets()
      modifies this`asn
      ensures asn == Prune(old(asn))
    {
      var pending := asn.Keys;
      while pending != {}
        invariant pending <= old(asn).Keys
        invariant asn == map k | k in old(asn) && (k in pending || old(asn)[k] != {}) :: old(asn)[k]
        decreases pending
      {
        var k :| k in pending;
        if |asn[k]| < 1 {
          asn := asn - {k};
        }
        pending := pending - {k};
      }
    }

    /** lookupByIP: the cached answer for addr and whether it is expired at now. */
    method LookupByIP(addr: string, now: int) returns (a: string, descr: string, expired: bool, found: bool)
      ensures found <==> addr in ip
      ensures found ==> a == ip[addr].asn && descr == ip[addr].descr && (expired <==> now > ip[addr].due)
      ensures !found ==> a == "" && descr == "" && !expired
      ensures Probe(a, descr, expired, found) == Lookup(ip, addr, now)
    {
      if addr !in ip {
        return "", "", false, false;
      }
      var entry := ip[addr];
      return entry.asn, entry.descr, now > entry.due, true;
    }

    /** lookupByASN: the addresses cached under a; empty (not nil) for an
        unknown ASN. */
    method LookupByASN(a: string) returns (ips: set<string>)
      requires Valid()
      ensures ips == BucketOf(asn, a)
      ensures forall x :: x in ips <==> x in ip && ip[x].asn == a
    {
      if a !in asn {
        return {};
      }
      return asn[a];
    }

    /** purgeASN: remove every entry with ASN a, then the bucket of a. */
    method PurgeASN(a: string)
      requires Valid()
      modifies this
      ensures Valid()
      ensures ip == PurgeForward(old(ip), a)
      ensures asn == old(asn) - {a}
    {
      DropEntriesOf(a);
      asn := asn - {a};
      PurgePreservesConsistency(old(ip), old(asn), a);
    }

    /** The loop of purgeASN: delete every forward entry whose ASN is a. */
    method DropEntriesOf(a: string)
      modifies this`ip
      ensures ip == PurgeForward(old(ip), a)
    {
      var pending := ip.Keys;
      while pending != {}
        invariant pending <= old(ip).Keys
        invariant ip == map k | k in old(ip) && (k in pending || old(ip)[k].asn != a) :: old(ip)[k]
        decreases pending
      {
        var k :| k in pending;
        if ip[k].asn == a {
          ip := ip - {k};
        }
        pending := pending - {k};
      }
    }

    /** purgeAll: empty both indices. */
    method PurgeAll()
      modifies this
      ensures Valid()
      ensures ip == map[] && asn == map[]
    {
      var pending := ip.Keys;
      while pending != {}
        invariant ip.Keys == pending
        decreases pending
      {
        var k :| k in pending;
        ip := ip - {k};
        pending := pending - {k};
      }
      var buckets := asn.Keys;
      while buckets != {}
        invariant asn.Keys == buckets
        invariant ip == map[]
        decreases buckets
      {
        var k :| k in buckets;
        asn := asn - {k};
        buckets := buckets - {k};
      }
    }

    /** asnList: every ASN with a bucket, each once. */
    method AsnList() returns (list: seq<string>)
      ensures |list| == |asn|
      ensures forall a :: a in list <==> a in asn
      ensures forall i, j | 0 <= i < j < |list| :: list[i] != list[j]
    {
      list := Enumerate(asn.Keys);
    }
  }
}
