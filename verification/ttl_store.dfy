/** The in-process key -> (payload, expiration) map that each cache service
    keeps, and what one read or one write does to it. An entry is visible only
    while its expiration lies strictly after `now`; a read that finds it
    expired removes it. */
module TtlStore {
  import opened Common

  datatype Entry<V> = Entry(data: V, expiration: int)

  predicate IsLive<K, V>(m: map<K, Entry<V>>, k: K, now: int)
  {
    k in m && m[k].expiration > now
  }

  /** What a read reports: the payload of a live entry, absent otherwise. */
  function Read<K, V>(m: map<K, Entry<V>>, k: K, now: int): Option<V>
  {
    if IsLive(m, k, now) then Some(m[k].data) else None
  }

  /** The map after a read: an entry found expired has been removed. */
  function AfterRead<K, V>(m: map<K, Entry<V>>, k: K, now: int): map<K, Entry<V>>
  {
    if k in m && m[k].expiration <= now then m - {k} else m
  }

  /** The map after a write at time `now`: the key holds the new payload and
      expires one TTL later, whatever it held before. */
  function Write<K, V>(m: map<K, Entry<V>>, k: K, v: V, now: int): map<K, Entry<V>>
  {
    m[k := Entry(v, now + Ttl)]
  }

  /** `k` is present in both maps with the same entry, or in neither. */
  ghost predicate SameAt<K, V>(m1: map<K, Entry<V>>, m2: map<K, Entry<V>>, k: K)
  {
    (k in m1 <==> k in m2) && (k in m1 ==> m1[k] == m2[k])
  }

  /** A written payload is read back until the TTL has elapsed, and is absent
      (and evicted by the read) from then on. */
  lemma WriteThenRead<K, V>(m: map<K, Entry<V>>, k: K, v: V, now: int, later: int)
    requires now <= later
    ensures later < now + Ttl ==>
      Read(Write(m, k, v, now), k, later) == Some(v) &&
      AfterRead(Write(m, k, v, now), k, later) == Write(m, k, v, now)
    ensures later >= now + Ttl ==>
      Read(Write(m, k, v, now), k, later) == None &&
      k !in AfterRead(Write(m, k, v, now), k, later)
  {
  }

  /** A write to one key is not seen through any other key. */
  lemma WriteIsolated<K, V>(m: map<K, Entry<V>>, k: K, other: K, v: V, now: int, later: int)
    requires other != k
    ensures SameAt(m, Write(m, k, v, now), other)
    ensures Read(Write(m, k, v, now), other, later) == Read(m, other, later)
  {
  }

  /** Last writer wins: a second write replaces the first payload and its
      expiration. */
  lemma WriteOverwrites<K, V>(m: map<K, Entry<V>>, k: K, v1: V, v2: V, t1: int, t2: int)
    ensures Write(Write(m, k, v1, t1), k, v2, t2) == Write(m, k, v2, t2)
    ensures Write(m, k, v2, t2)[k] == Entry(v2, t2 + Ttl)
  {
  }

  /** A read reports an entry exactly when it is live; an entry that is not
      live is gone afterwards, and no other key is touched. */
  lemma ReadEvictsExpired<K, V>(m: map<K, Entry<V>>, k: K, now: int)
    ensures Read(m, k, now).Some? <==> k in m && m[k].expiration > now
    ensures Read(m, k, now).Some? ==> Read(m, k, now).value == m[k].data
    ensures Read(m, k, now).None? ==> k !in AfterRead(m, k, now)
    ensures Read(m, k, now).Some? ==> AfterRead(m, k, now) == m
    ensures k !in m ==> AfterRead(m, k, now) == m
    ensures forall other :: other != k ==> SameAt(m, AfterRead(m, k, now), other)
  {
  }
}
