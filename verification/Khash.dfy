/**
 khash: an open-addressing hash table with triangular probing, tombstones, and a rehash that works in
 place by kicking entries out. This module says what a table is; HashTable is the mutable one.
 */
module Khash {
  import opened Probing
  import opened KhashFlags

  /** 0.77 of the buckets, rounded to the nearest integer. */
  function UpperBound(n: nat): nat {
    (77 * n + 50) / 100
  }

  /** Nearest to 0.77 n, halves upwards. */
  lemma UpperBoundRounds(n: nat, k: nat)
    ensures k == UpperBound(n) <==> 100 * k - 50 <= 77 * n < 100 * k + 50
  {
  }

  predicate IsLive(s: Slot) {
    s == Live
  }

  predicate IsFull(s: Slot) {
    s == Live || s == Deleted
  }

  // ---------- counting ----------

  function Count(st: seq<Slot>, p: Slot -> bool): (c: nat)
    ensures c <= |st|
  {
    if st == [] then 0 else Count(st[..|st| - 1], p) + if p(st[|st| - 1]) then 1 else 0
  }

  lemma {:induction false} CountUpdate(st: seq<Slot>, p: Slot -> bool, i: nat, v: Slot)
    requires i < |st|
    ensures Count(st[i := v], p) + (if p(st[i]) then 1 else 0) == Count(st, p) + (if p(v) then 1 else 0)
    decreases |st|
  {
    var m := |st| - 1;
    if i < m {
      assert st[i := v][..m] == st[..m][i := v];
      CountUpdate(st[..m], p, i, v);
    } else {
      assert st[i := v][..m] == st[..m];
    }
  }

  lemma {:induction false} CountNone(st: seq<Slot>, p: Slot -> bool)
    requires forall i :: 0 <= i < |st| ==> !p(st[i])
    ensures Count(st, p) == 0
  {
    if st != [] {
      var m := |st| - 1;
      assert forall i :: 0 <= i < m ==> st[..m][i] == st[i];
      CountNone(st[..m], p);
    }
  }

  lemma {:induction false} CountZero(st: seq<Slot>, p: Slot -> bool, i: nat)
    requires Count(st, p) == 0 && i < |st|
    ensures !p(st[i])
    decreases |st|
  {
    if i < |st| - 1 { CountZero(st[..|st| - 1], p, i); }
  }

  lemma {:induction false} NotAll(st: seq<Slot>, p: Slot -> bool) returns (i: nat)
    requires Count(st, p) < |st|
    ensures i < |st| && !p(st[i])
  {
    var m := |st| - 1;
    if p(st[m]) { i := NotAll(st[..m], p); } else { i := m; }
  }

  lemma {:induction false} CountSame(st: seq<Slot>, p: Slot -> bool, q: Slot -> bool)
    requires forall i :: 0 <= i < |st| ==> p(st[i]) == q(st[i])
    ensures Count(st, p) == Count(st, q)
  {
    if st != [] {
      var m := |st| - 1;
      assert forall i :: 0 <= i < m ==> st[..m][i] == st[i];
      CountSame(st[..m], p, q);
    }
  }

  lemma {:induction false} LiveIsFull(st: seq<Slot>)
    ensures Count(st, IsLive) <= Count(st, IsFull)
  {
    if st != [] { LiveIsFull(st[..|st| - 1]); }
  }

  // ---------- paths and tables ----------

  /** The first `s` slots a probe looks at are not empty. */
  ghost predicate PathFull(st: seq<Slot>, h: nat, s: nat) {
    st != [] && forall t: nat :: t < s ==> IsFull(st[Probe(h, t, |st|)])
  }

  /** A probe gets to slot `x`. */
  ghost predicate Reach(st: seq<Slot>, h: nat, x: nat) {
    st != [] && exists s: nat :: s < |st| && Probe(h, s, |st|) == x && PathFull(st, h, s)
  }

  lemma ReachKept(st: seq<Slot>, h: nat, x: nat, i: nat, v: Slot)
    requires Reach(st, h, x) && i < |st| && IsFull(v)
    ensures Reach(st[i := v], h, x)
  {
    var s: nat :| s < |st| && Probe(h, s, |st|) == x && PathFull(st, h, s);
    assert PathFull(st[i := v], h, s);
  }

  lemma ReachNew(st: seq<Slot>, h: nat, s: nat, v: Slot)
    requires PathFull(st, h, s) && s < |st| && IsFull(v)
    ensures Reach(st[Probe(h, s, |st|) := v], h, Probe(h, s, |st|))
  {
    var st' := st[Probe(h, s, |st|) := v];
    assert PathFull(st', h, s);
  }

  /** Every live slot holds the key that is registered there, and a probe for any registered key gets to it. */
  ghost predicate Good<K(!new)>(st: seq<Slot>, keys: seq<K>, slot: map<K, nat>, hash: K -> nat) {
    && |keys| == |st|
    && (forall i :: 0 <= i < |st| ==> st[i] != Both)
    && (forall i :: 0 <= i < |st| && st[i] == Live ==> keys[i] in slot && slot[keys[i]] == i)
    && (forall k :: k in slot ==>
          slot[k] < |st| && st[slot[k]] == Live && keys[slot[k]] == k && Reach(st, hash(k), slot[k]))
  }

  predicate HoldsKey<K(==)>(st: seq<Slot>, keys: seq<K>, x: nat, key: K) {
    x < |st| && x < |keys| && st[x] == Live && keys[x] == key
  }

  /** A probe that runs into an empty slot has shown that the key is not there. */
  lemma NotThere<K(!new)>(st: seq<Slot>, keys: seq<K>, slot: map<K, nat>, hash: K -> nat, key: K, s: nat)
    requires Good(st, keys, slot, hash) && s < |st| && st[Probe(hash(key), s, |st|)] == Empty
    requires forall t: nat :: t < s ==> !HoldsKey(st, keys, Probe(hash(key), t, |st|), key)
    ensures key !in slot
  {
    if key in slot { var r := FoundAt(st, keys, slot, hash, key); }
  }

  lemma FoundAt<K(!new)>(st: seq<Slot>, keys: seq<K>, slot: map<K, nat>, hash: K -> nat, key: K) returns (r: nat)
    requires Good(st, keys, slot, hash) && key in slot
    ensures r < |st| && PathFull(st, hash(key), r) && HoldsKey(st, keys, Probe(hash(key), r, |st|), key)
  {
    r :| r < |st| && Probe(hash(key), r, |st|) == slot[key] && PathFull(st, hash(key), r);
  }

  /** The first `s` slots a probe looked at are not empty and do not hold the key. */
  ghost predicate Seen<K(!new)>(st: seq<Slot>, keys: seq<K>, h: nat, key: K, s: nat) {
    PathFull(st, h, s) && forall t: nat :: t < s ==> !HoldsKey(st, keys, Probe(h, t, |st|), key)
  }

  lemma SeenNone<K(!new)>(st: seq<Slot>, keys: seq<K>, h: nat, key: K)
    requires st != []
    ensures Seen(st, keys, h, key, 0)
  {
  }

  lemma SeenMore<K(!new)>(st: seq<Slot>, keys: seq<K>, h: nat, key: K, s: nat)
    requires Seen(st, keys, h, key, s) && IsFull(st[Probe(h, s, |st|)]) && !HoldsKey(st, keys, Probe(h, s, |st|), key)
    ensures Seen(st, keys, h, key, s + 1)
  {
  }

  /** What the probe knows when it stops: the key is here, or it is nowhere. */
  lemma SeenEnds<K(!new)>(st: seq<Slot>, keys: seq<K>, slot: map<K, nat>, hash: K -> nat, key: K, s: nat)
    requires Good(st, keys, slot, hash) && s < |st| && Seen(st, keys, hash(key), key, s)
    ensures PathFull(st, hash(key), s)
    ensures st[Probe(hash(key), s, |st|)] == Empty ==> key !in slot
    ensures HoldsKey(st, keys, Probe(hash(key), s, |st|), key) ==> key in slot && slot[key] == Probe(hash(key), s, |st|)
  {
    hide Probe, Reach;
    if st[Probe(hash(key), s, |st|)] == Empty { NotThere(st, keys, slot, hash, key, s); }
  }

  ghost predicate Tombstone(st: seq<Slot>, h: nat, x: nat, s: nat) {
    st != [] && x == Probe(h, s, |st|) && st[x] == Deleted && PathFull(st, h, s)
  }

  ghost predicate NoTombstones(st: seq<Slot>, h: nat, from: nat, to: nat) {
    st != [] && forall t: nat :: from <= t < to ==> st[Probe(h, t, |st|)] != Deleted
  }

  /**
   Where a new key goes: to slot `x` at step `s` of its probe, which is the last tombstone before the first
   empty slot, or that slot itself if there is no tombstone before it.
   */
  ghost predicate Site(st: seq<Slot>, h: nat, x: nat, s: nat) {
    && s < |st| && x == Probe(h, s, |st|) && PathFull(st, h, s)
    && (if st[x] == Empty then NoTombstones(st, h, 0, s)
        else st[x] == Deleted && exists e: nat :: s < e && FirstEmpty(st, h, e) && NoTombstones(st, h, s + 1, e))
  }

  ghost predicate FirstEmpty(st: seq<Slot>, h: nat, e: nat) {
    e < |st| && PathFull(st, h, e) && st[Probe(h, e, |st|)] == Empty
  }

  lemma SiteIs(st: seq<Slot>, h: nat, x: nat, s: nat)
    requires Site(st, h, x, s)
    ensures s < |st| && x == Probe(h, s, |st|) && PathFull(st, h, s) && x < |st| && st[x] != Live
  {
  }

  /** What the probe has passed: `site` is the last tombstone so far, at step `t`, or the end if there was none. */
  ghost predicate LastSite(st: seq<Slot>, h: nat, site: nat, t: nat, s: nat) {
    if site == |st| then NoTombstones(st, h, 0, s)
    else t < s && Tombstone(st, h, site, t) && NoTombstones(st, h, t + 1, s)
  }

  lemma SiteNone(st: seq<Slot>, h: nat)
    requires st != []
    ensures LastSite(st, h, |st|, 0, 0)
  {
  }

  lemma SiteMore(st: seq<Slot>, h: nat, site: nat, t: nat, s: nat)
    requires LastSite(st, h, site, t, s) && PathFull(st, h, s) && st != []
    ensures var x := Probe(h, s, |st|);
      if st[x] == Deleted then x < |st| && LastSite(st, h, x, s, s + 1) else LastSite(st, h, site, t, s + 1)
  {
  }

  lemma SiteEnds(st: seq<Slot>, h: nat, site: nat, t: nat, e: nat)
    requires LastSite(st, h, site, t, e) && FirstEmpty(st, h, e)
    ensures if site == |st| then Site(st, h, Probe(h, e, |st|), e) else Site(st, h, site, t)
  {
  }

  /** Taking a slot on the path of a key that is not there. */
  lemma Insert<K(!new)>(st: seq<Slot>, keys: seq<K>, slot: map<K, nat>, hash: K -> nat, key: K, s: nat)
    requires Good(st, keys, slot, hash) && key !in slot && s < |st| && PathFull(st, hash(key), s)
    requires st[Probe(hash(key), s, |st|)] != Live
    ensures var x := Probe(hash(key), s, |st|);
      Good(st[x := Live], keys[x := key], slot[key := x], hash)
  {
    var x := Probe(hash(key), s, |st|);
    var st', slot' := st[x := Live], slot[key := x];
    ReachNew(st, hash(key), s, Live);
    forall k | k in slot' ensures Reach(st', hash(k), slot'[k]) {
      if k != key { ReachKept(st, hash(k), slot[k], x, Live); }
    }
  }

  /** Leaving a tombstone. */
  lemma Remove<K(!new)>(st: seq<Slot>, keys: seq<K>, slot: map<K, nat>, hash: K -> nat, x: nat)
    requires Good(st, keys, slot, hash) && x < |st| && st[x] == Live
    ensures Good(st[x := Deleted], keys, slot - {keys[x]}, hash)
  {
    var st', slot' := st[x := Deleted], slot - {keys[x]};
    forall k | k in slot' ensures Reach(st', hash(k), slot'[k]) {
      ReachKept(st, hash(k), slot[k], x, Deleted);
    }
  }

  /** Some probe of any key is at an empty slot, before the path comes back to its start. */
  lemma EmptyAhead(st: seq<Slot>, h: nat) returns (e: nat)
    requires IsPow2(|st|) && Count(st, IsFull) < |st| && forall i :: 0 <= i < |st| ==> st[i] != Both
    ensures e < |st| && st[Probe(h, e, |st|)] == Empty
    ensures forall s: nat :: 0 < s <= e ==> Probe(h, s, |st|) != Probe(h, 0, |st|)
  {
    var x := NotAll(st, IsFull);
    e := ProbesCover(h, x, |st|);
    forall s: nat | 0 < s <= e ensures Probe(h, s, |st|) != Probe(h, 0, |st|) {
      FirstReturn(h, s, |st|);
    }
  }

  // ---------- rehashing ----------

  /**
   In the middle of a rehash: entries live in the old flags or in the new ones, never in both, and at most
   one is in flight, marked -1. `where` says where each key is.
   */
  ghost predicate Midway<K(!new), V(!new)>(olds: seq<Slot>, news: seq<Slot>, keys: seq<K>, vals: seq<V>,
                                           place: map<K, int>, content: map<K, V>, hash: K -> nat) {
    && |olds| <= |keys| && |news| <= |keys| && |keys| == |vals| && place.Keys == content.Keys
    && (forall i :: 0 <= i < |olds| ==> olds[i] != Both)
    && (forall i :: 0 <= i < |news| ==> news[i] == Live || news[i] == Empty)
    && (forall i :: 0 <= i < |olds| && olds[i] == Live ==> keys[i] in place && place[keys[i]] == i)
    && (forall i :: 0 <= i < |news| && news[i] == Live ==> keys[i] in place && place[keys[i]] == i)
    && (forall i :: 0 <= i < |olds| && i < |news| && olds[i] == Live ==> news[i] == Empty)
    && (forall k :: k in place && place[k] != -1 ==> Placed(olds, news, keys, vals, k, place[k], content[k], hash(k)))
  }

  ghost predicate Placed<K(!new), V(!new)>(olds: seq<Slot>, news: seq<Slot>, keys: seq<K>, vals: seq<V>, k: K, i: int,
                                           v: V, h: nat)
    requires |keys| == |vals|
  {
    && 0 <= i < |keys| && keys[i] == k && vals[i] == v
    && ((i < |olds| && olds[i] == Live) || (i < |news| && news[i] == Live && Reach(news, h, i)))
  }

  /** `key` with its value is the one entry in flight. */
  ghost predicate InFlight<K(!new), V>(place: map<K, int>, content: map<K, V>, key: K, val: V) {
    && key in place && place[key] == -1 && key in content && content[key] == val
    && forall k :: k in place && place[k] == -1 ==> k == key
  }

  lemma TakeOut<K(!new), V(!new)>(olds: seq<Slot>, news: seq<Slot>, keys: seq<K>, vals: seq<V>,
                                  place: map<K, int>, content: map<K, V>, hash: K -> nat, j: nat)
    requires Midway(olds, news, keys, vals, place, content, hash) && j < |olds| && olds[j] == Live
    requires forall k :: k in place ==> place[k] != -1
    ensures Midway(olds[j := Deleted], news, keys, vals, place[keys[j] := -1], content, hash)
    ensures InFlight(place[keys[j] := -1], content, keys[j], vals[j])
  {
    hide Reach;
    var place' := place[keys[j] := -1];
    assert Placed(olds, news, keys, vals, keys[j], j, content[keys[j]], hash(keys[j]));
    forall k | k in place' && place'[k] != -1
      ensures Placed(olds[j := Deleted], news, keys, vals, k, place'[k], content[k], hash(k))
    {
      assert Placed(olds, news, keys, vals, k, place[k], content[k], hash(k));
    }
  }

  /** The entry in flight takes a free new slot; what the old table had there is in flight next. */
  lemma Put<K(!new), V(!new)>(olds: seq<Slot>, news: seq<Slot>, keys: seq<K>, vals: seq<V>,
                              place: map<K, int>, content: map<K, V>, hash: K -> nat, key: K, val: V, s: nat)
    requires Midway(olds, news, keys, vals, place, content, hash) && InFlight(place, content, key, val)
    requires s < |news| && PathFull(news, hash(key), s) && news[Probe(hash(key), s, |news|)] == Empty
    ensures var i := Probe(hash(key), s, |news|);
      var kicked := i < |olds| && olds[i] == Live;
      var olds' := if kicked then olds[i := Deleted] else olds;
      var place' := if kicked then place[key := i][keys[i] := -1] else place[key := i];
      && Midway(olds', news[i := Live], keys[i := key], vals[i := val], place', content, hash)
      && (if kicked then InFlight(place', content, keys[i], vals[i]) else forall k :: k in place' ==> place'[k] != -1)
  {
    var i := Probe(hash(key), s, |news|);
    var kicked := i < |olds| && olds[i] == Live;
    var olds' := if kicked then olds[i := Deleted] else olds;
    var place' := if kicked then place[key := i][keys[i] := -1] else place[key := i];
    ReachNew(news, hash(key), s, Live);
    hide Reach, PathFull, Probe;
    if kicked { assert Placed(olds, news, keys, vals, keys[i], i, content[keys[i]], hash(keys[i])); }
    forall k | k in place' && place'[k] != -1
      ensures Placed(olds', news[i := Live], keys[i := key], vals[i := val], k, place'[k], content[k], hash(k))
    {
      if k != key {
        assert Placed(olds, news, keys, vals, k, place[k], content[k], hash(k));
        if place[k] < |news| && news[place[k]] == Live { ReachKept(news, hash(k), place[k], i, Live); }
      }
    }
  }

  /** A table at the start of its rehash. */
  lemma StartRehash<K(!new), V(!new)>(olds: seq<Slot>, news: seq<Slot>, keys: seq<K>, vals: seq<V>, more: seq<K>,
                                      moreVals: seq<V>,
                                      slot: map<K, nat>, content: map<K, V>, hash: K -> nat)
    returns (place: map<K, int>)
    requires Good(olds, keys, slot, hash) && |vals| == |keys| && slot.Keys == content.Keys
    requires forall k :: k in slot ==> slot[k] < |keys| && vals[slot[k]] == content[k]
    requires |keys| <= |more| == |moreVals| && more[..|keys|] == keys && moreVals[..|vals|] == vals
    requires |news| <= |more| && forall i :: 0 <= i < |news| ==> news[i] == Empty
    ensures Midway(olds, news, more, moreVals, place, content, hash) && forall k :: k in place ==> place[k] != -1
  {
    hide Reach;
    place := map k | k in slot :: slot[k];
    forall i | 0 <= i < |olds| ensures more[i] == keys[i] && moreVals[i] == vals[i] {
      assert more[i] == more[..|keys|][i] && moreVals[i] == moreVals[..|vals|][i];
    }
  }

  /** A rehash with nothing left in the old table. */
  lemma EndRehash<K(!new), V(!new)>(olds: seq<Slot>, news: seq<Slot>, keys: seq<K>, vals: seq<V>,
                                    place: map<K, int>, content: map<K, V>, hash: K -> nat) returns (slot: map<K, nat>)
    requires Midway(olds, news, keys, vals, place, content, hash) && forall k :: k in place ==> place[k] != -1
    requires forall i :: 0 <= i < |olds| ==> olds[i] != Live
    ensures Good(news, keys[..|news|], slot, hash) && slot.Keys == content.Keys
    ensures forall k :: k in slot ==> slot[k] < |news| && vals[slot[k]] == content[k]
  {
    hide Reach;
    forall k | k in place ensures 0 <= place[k] < |news| && news[place[k]] == Live && keys[place[k]] == k
      && vals[place[k]] == content[k] && Reach(news, hash(k), place[k])
    {
      assert Placed(olds, news, keys, vals, k, place[k], content[k], hash(k));
    }
    slot := map k | k in place :: place[k];
  }

  /** The first empty slot on the path of a hash. */
  method FindEmpty(flags: array<bv32>, n: nat, h: nat) returns (i: nat, ghost s: nat)
    requires n <= 16 * flags.Length && IsPow2(n) && Count(Slots(flags[..], n), IsFull) < n
    requires forall k :: 0 <= k < n ==> Slots(flags[..], n)[k] != Both
    ensures s < n && i == Probe(h, s, n) && PathFull(Slots(flags[..], n), h, s) && Slots(flags[..], n)[i] == Empty
  {
    hide Probe, Count, IsPow2, Triangle, SlotAt, IsEmpty;
    ghost var st := Slots(flags[..], n);
    ghost var e := EmptyAhead(st, h);
    i, s := h % n, 0;
    var step := 0;
    ProbeStep(h, 0, n);
    while !IsEmpty(flags[..], i)
      invariant step == s <= e && i == Probe(h, s, n) && PathFull(st, h, s)
      decreases e - s
    {
      ProbeStep(h, s, n);
      step := step + 1;
      s := s + 1;
      i := (i + step) % n;
    }
  }

  /** The kick-out process: the entry in flight goes to its place, and so does whatever it drives out. */
  method KickOut<K(!new), V(!new)>(flags: array<bv32>, nOld: nat, newFlags: array<bv32>, nNew: nat, keys: array<K>,
                                   vals: array<V>,
                                   hash: K -> nat, key0: K, val0: V,
                                   ghost place0: map<K, int>, ghost content: map<K, V>, ghost total: nat)
    returns (ghost place: map<K, int>)
    requires nOld <= 16 * flags.Length && nNew <= 16 * newFlags.Length
    requires IsPow2(nNew) && total < nNew && flags != newFlags
    requires (keys as object) != (vals as object) && (keys as object) !in {flags, newFlags}
    requires (vals as object) !in {flags, newFlags}
    requires Midway(Slots(flags[..], nOld), Slots(newFlags[..], nNew), keys[..], vals[..], place0, content, hash)
    requires InFlight(place0, content, key0, val0)
    requires Count(Slots(flags[..], nOld), IsLive) + Count(Slots(newFlags[..], nNew), IsFull) + 1 == total
    modifies flags, newFlags, keys, vals
    ensures Midway(Slots(flags[..], nOld), Slots(newFlags[..], nNew), keys[..], vals[..], place, content, hash)
    ensures forall k :: k in place ==> place[k] != -1
    ensures Count(Slots(flags[..], nOld), IsLive) + Count(Slots(newFlags[..], nNew), IsFull) == total
    ensures forall i :: 0 <= i < nOld && Slots(flags[..], nOld)[i] == Live ==> old(Slots(flags[..], nOld))[i] == Live
  {
    hide Count, IsPow2, Probe, SlotAt, IsEither, Midway, InFlight;
    var key, val := key0, val0;
    place := place0;
    ghost var before := Slots(flags[..], nOld);
    while true
      invariant Midway(Slots(flags[..], nOld), Slots(newFlags[..], nNew), keys[..], vals[..], place, content, hash)
      invariant InFlight(place, content, key, val)
      invariant Count(Slots(flags[..], nOld), IsLive) + Count(Slots(newFlags[..], nNew), IsFull) + 1 == total
      invariant forall i :: 0 <= i < nOld && Slots(flags[..], nOld)[i] == Live ==> before[i] == Live
      decreases Count(Slots(flags[..], nOld), IsLive)
    {
      ghost var olds, news := Slots(flags[..], nOld), Slots(newFlags[..], nNew);
      MidwaySizes(olds, news, keys[..], vals[..], place, content, hash);
      ghost var s;
      var i;
      i, s := FindEmpty(newFlags, nNew, hash(key));
      Put(olds, news, keys[..], vals[..], place, content, hash, key, val, s);
      CountUpdate(news, IsFull, i, Live);
      SetNotEmpty(newFlags, i, nNew);
      if i < nOld && !IsEither(flags[..], i) {
        CountUpdate(olds, IsLive, i, Deleted);
        place := place[key := i][keys[i] := -1];
        ghost var ks, vs := keys[..], vals[..];
        var k2, v2 := keys[i], vals[i];
        keys[i], vals[i] := key, val;
        assert keys[..] == ks[i := key] && vals[..] == vs[i := val];
        key, val := k2, v2;
        SetDeleted(flags, i, nOld);
      } else {
        place := place[key := i];
        ghost var ks, vs := keys[..], vals[..];
        keys[i], vals[i] := key, val;
        assert keys[..] == ks[i := key] && vals[..] == vs[i := val];
        return;
      }
    }
  }

  lemma MidwaySizes<K(!new), V(!new)>(olds: seq<Slot>, news: seq<Slot>, keys: seq<K>, vals: seq<V>,
                                      place: map<K, int>, content: map<K, V>, hash: K -> nat)
    requires Midway(olds, news, keys, vals, place, content, hash)
    ensures |olds| <= |keys| && |news| <= |keys| && |keys| == |vals|
    ensures forall i :: 0 <= i < |news| ==> news[i] == Live || news[i] == Empty
    ensures forall i :: 0 <= i < |olds| ==> olds[i] != Both
  {
  }

  /** Every live slot of the old table in turn, if it has not been kicked out by then. */
  method Rehash<K(!new), V(!new)>(flags: array<bv32>, nOld: nat, newFlags: array<bv32>, nNew: nat, keys: array<K>,
                                  vals: array<V>,
                                  hash: K -> nat, ghost place0: map<K, int>, ghost content: map<K, V>, ghost total: nat)
    returns (ghost slot: map<K, nat>)
    requires nOld <= 16 * flags.Length && nNew <= 16 * newFlags.Length
    requires IsPow2(nNew) && total < nNew && flags != newFlags
    requires (keys as object) != (vals as object) && (keys as object) !in {flags, newFlags}
    requires (vals as object) !in {flags, newFlags}
    requires Midway(Slots(flags[..], nOld), Slots(newFlags[..], nNew), keys[..], vals[..], place0, content, hash)
    requires forall k :: k in place0 ==> place0[k] != -1
    requires Count(Slots(flags[..], nOld), IsLive) + Count(Slots(newFlags[..], nNew), IsFull) == total
    modifies flags, newFlags, keys, vals
    ensures nNew <= keys.Length == vals.Length && Good(Slots(newFlags[..], nNew), keys[..nNew], slot, hash)
    ensures slot.Keys == content.Keys && forall k :: k in slot ==> slot[k] < nNew && vals[slot[k]] == content[k]
    ensures Count(Slots(newFlags[..], nNew), IsFull) == Count(Slots(newFlags[..], nNew), IsLive) == total
  {
    hide Count, IsPow2, SlotAt, IsEither, Midway, InFlight, Good;
    ghost var place := place0;
    MidwaySizes(Slots(flags[..], nOld), Slots(newFlags[..], nNew), keys[..], vals[..], place, content, hash);
    var j := 0;
    while j != nOld
      invariant j <= nOld <= keys.Length == vals.Length
      invariant Midway(Slots(flags[..], nOld), Slots(newFlags[..], nNew), keys[..], vals[..], place, content, hash)
      invariant forall k :: k in place ==> place[k] != -1
      invariant Count(Slots(flags[..], nOld), IsLive) + Count(Slots(newFlags[..], nNew), IsFull) == total
      invariant forall i :: 0 <= i < j ==> Slots(flags[..], nOld)[i] != Live
      decreases nOld - j
    {
      if !IsEither(flags[..], j) {
        ghost var olds := Slots(flags[..], nOld);
        var key, val := keys[j], vals[j];
        TakeOut(olds, Slots(newFlags[..], nNew), keys[..], vals[..], place, content, hash, j);
        CountUpdate(olds, IsLive, j, Deleted);
        SetDeleted(flags, j, nOld);
        place := KickOut(flags, nOld, newFlags, nNew, keys, vals, hash, key, val, place[key := -1], content, total);
      }
      j := j + 1;
    }
    ghost var news := Slots(newFlags[..], nNew);
    slot := EndRehash(Slots(flags[..], nOld), news, keys[..], vals[..], place, content, hash);
    CountNone(Slots(flags[..], nOld), IsLive);
    MidwaySizes(Slots(flags[..], nOld), news, keys[..], vals[..], place, content, hash);
    CountSame(news, IsFull, IsLive);
    assert keys[..nNew] == keys[..][..nNew];
  }

  // ---------- where a new key goes ----------

  /** At its slot if it is there, else at the last tombstone before the first empty slot, else at that one. */
  method Locate<K(==, !new)>(flags: array<bv32>, n: nat, keys: array<K>, hash: K -> nat, key: K,
                             ghost slot: map<K, nat>)
    returns (x: nat, ghost s: nat)
    requires n <= 16 * flags.Length && IsPow2(n) && Count(Slots(flags[..], n), IsFull) < n
    requires Good(Slots(flags[..], n), keys[..], slot, hash)
    ensures x < n && (key in slot ==> x == slot[key])
    ensures key !in slot ==> Site(Slots(flags[..], n), hash(key), x, s)
  {
    hide Probe, Count, IsPow2, Triangle, SlotAt, IsEmpty, IsDel, Seen, LastSite, Site, Good, PathFull;
    ghost var st, h := Slots(flags[..], n), hash(key);
    GoodShape(st, keys[..], slot, hash);
    ghost var e := EmptyAhead(st, h);
    var i, step, wrapped := hash(key) % n, 0, false;
    var site: nat := n;
    ghost var siteStep: nat := 0;
    var last := i;
    ProbeStep(h, 0, n);
    SeenNone(st, keys[..], h, key);
    SiteNone(st, h);
    while !wrapped && !IsEmpty(flags[..], i) && (IsDel(flags[..], i) || keys[i] != key)
      invariant !wrapped && step <= e && i == Probe(h, step, n) && Seen(st, keys[..], h, key, step)
      invariant site <= n && LastSite(st, h, site, siteStep, step)
      decreases e - step
    {
      SeenFull(st, keys[..], h, key, step);
      SeenMore(st, keys[..], h, key, step);
      SiteMore(st, h, site, siteStep, step);
      if IsDel(flags[..], i) { site, siteStep := i, step; }
      ProbeStep(h, step, n);
      step := step + 1;
      i := (i + step) % n;
      wrapped := i == last;
    }
    SeenEnds(st, keys[..], slot, hash, key, step);
    if st[i] == Empty { SiteEnds(st, h, site, siteStep, step); }
    x, s := i, step;
    if wrapped || (IsEmpty(flags[..], i) && site != n) {
      x, s := site, siteStep;
    }
  }

  lemma SeenFull<K(!new)>(st: seq<Slot>, keys: seq<K>, h: nat, key: K, s: nat)
    requires Seen(st, keys, h, key, s)
    ensures PathFull(st, h, s)
  {
  }

  lemma GoodShape<K(!new)>(st: seq<Slot>, keys: seq<K>, slot: map<K, nat>, hash: K -> nat)
    requires Good(st, keys, slot, hash)
    ensures |keys| == |st| && forall i :: 0 <= i < |st| ==> st[i] != Both
  {
  }

  // ---------- the table ----------

  class HashTable<K(==, 0, !new), V(0, !new)> {
    const hash: K -> nat
    var nBuckets: nat
    var size: nat
    var nOccupied: nat
    var upperBound: nat
    var flags: array<bv32>
    var keys: array<K>
    var vals: array<V>
    /** Where each key is. */
    ghost var slot: map<K, nat>

    ghost predicate Shape()
      reads this
    {
      && keys.Length == vals.Length == nBuckets && nBuckets <= 16 * flags.Length
      && (keys as object) != (vals as object)
      && (keys as object) != (flags as object) && (vals as object) != (flags as object)
      && (if nBuckets == 0 then upperBound == 0
          else IsPow2(nBuckets) && nBuckets >= 4 && upperBound == UpperBound(nBuckets))
    }

    ghost function State(): (st: seq<Slot>)
      requires Shape()
      reads this, flags
      ensures |st| == nBuckets
    {
      Slots(flags[..], nBuckets)
    }

    /**
     Shape, sizes that count live and non-empty slots, room for at least one empty slot, and every key where
     its probe finds it.
     */
    ghost predicate Valid()
      reads this, flags, keys
    {
      && Shape() && Good(State(), keys[..], slot, hash)
      && size == Count(State(), IsLive) && nOccupied == Count(State(), IsFull) && nOccupied <= upperBound
    }

    /** The map the table stands for. */
    ghost function Contents(): (m: map<K, V>)
      requires Valid()
      reads this, flags, keys, vals
      ensures m.Keys == slot.Keys
    {
      map k | k in slot :: vals[slot[k]]
    }

    /** kh_init */
    constructor (h: K -> nat)
      ensures Valid() && hash == h && Contents() == map[] && fresh(flags) && fresh(keys) && fresh(vals)
    {
      hash := h;
      nBuckets, size, nOccupied, upperBound := 0, 0, 0, 0;
      flags := new bv32[0];
      keys := new K[0];
      vals := new V[0];
      slot := map[];
    }

    /** kh_get: the slot of a key, or the end. */
    method Get(key: K) returns (x: nat)
      requires Valid()
      ensures x == if key in slot then slot[key] else nBuckets
    {
      hide Probe, Count, IsPow2, Reach, Triangle, UpperBound, SlotAt, IsEmpty, IsDel, IsEither, Seen, Tombstone;
      if nBuckets == 0 { return 0; }
      ghost var st, h := State(), hash(key);
      BoundBelow(nBuckets);
      ghost var e := EmptyAhead(st, h);
      var i, step, wrapped := hash(key) % nBuckets, 0, false;
      var last := i;
      ProbeStep(h, 0, nBuckets);
      SeenNone(st, keys[..], h, key);
      while !wrapped && !IsEmpty(flags[..], i) && (IsDel(flags[..], i) || keys[i] != key)
        invariant !wrapped && step <= e && i == Probe(h, step, nBuckets) && Seen(st, keys[..], h, key, step)
        decreases e - step
      {
        SeenMore(st, keys[..], h, key, step);
        ProbeStep(h, step, nBuckets);
        step := step + 1;
        i := (i + step) % nBuckets;
        wrapped := i == last;
      }
      SeenEnds(st, keys[..], slot, hash, key, step);
      x := if wrapped || IsEither(flags[..], i) then nBuckets else i;
    }

    lemma Found(key: K)
      requires Valid() && key in slot
      ensures slot[key] < nBuckets && keys[slot[key]] == key
      ensures State()[slot[key]] == Live && Contents()[key] == vals[slot[key]]
    {
    }

    /** kh_value, assigned */
    method SetValue(x: nat, v: V)
      requires Valid() && x < nBuckets && State()[x] == Live
      modifies vals
      ensures Valid() && Contents() == old(Contents())[keys[x] := v]
    {
      vals[x] := v;
    }

    /** kh_del: a tombstone, for a live slot; nothing for any other slot or the end. */
    method Del(x: nat)
      requires Valid() && x <= nBuckets
      modifies this`size, this`slot, flags
      ensures Valid()
      ensures if x < nBuckets && old(State()[x]) == Live
              then Contents() == old(Contents()) - {keys[x]} && size == old(size) - 1
              else Contents() == old(Contents()) && size == old(size)
    {
      hide Count, Reach, SlotAt, IsPow2, Good;
      if x != nBuckets && !IsEither(flags[..], x) {
        ghost var st, was := State(), Contents();
        Remove(st, keys[..], slot, hash, x);
        CountUpdate(st, IsLive, x, Deleted);
        CountUpdate(st, IsFull, x, Deleted);
        SetDeleted(flags, x, nBuckets);
        LiveKey(st, keys[..], slot, hash, x);
        slot := slot - {keys[x]};
        LiveSize(st, x);
        size := size - 1;
        assert Contents() == was - {keys[x]};
      }
    }

    /** kh_clear: every slot is empty. */
    method Clear()
      requires Valid()
      modifies this`size, this`nOccupied, this`slot, flags
      ensures Valid() && Contents() == map[] && size == 0 && nBuckets == old(nBuckets)
    {
      hide Count, SlotAt;
      ClearFlags(flags, nBuckets);
      slot := map[];
      size, nOccupied := 0, 0;
      CountNone(State(), IsLive);
      CountNone(State(), IsFull);
    }

    /** Where kh_put puts a key. */
    method FindSlot(key: K) returns (x: nat, ghost s: nat)
      requires Valid() && nOccupied < upperBound
      ensures x < nBuckets && (key in slot ==> x == slot[key])
      ensures key !in slot ==> Site(State(), hash(key), x, s)
    {
      BoundBelow(nBuckets);
      hide Good, Count, PathFull, Probe, IsPow2, UpperBound, Site;
      x, s := Locate(flags, nBuckets, keys, hash, key, slot);
    }

    /** kh_put: make room, find the slot, and take it unless the key is there already. */
    method Put(key: K) returns (x: nat, ret: int)
      requires Valid()
      modifies this, flags, keys, vals
      ensures Valid() && x < nBuckets && key in slot && slot[key] == x
      ensures key in old(slot) ==> ret == 0 && Contents() == old(Contents()) && size == old(size)
      ensures key !in old(slot) ==>
        (ret == 1 || ret == 2) && Contents() == old(Contents())[key := vals[x]] && size == old(size) + 1
      ensures (flags == old(flags) || fresh(flags)) && (keys == old(keys) || fresh(keys))
      ensures (vals == old(vals) || fresh(vals))
    {
      hide *;
      MakeRoom();
      ghost var s;
      x, s := FindSlot(key);
      ret := Take(x, key, s);
    }

    /**
     Before an insertion, when the occupied slots reach the bound: clear tombstones if less than half of the slots
     are live, and double the table otherwise, to 4 at first.
     */
    method MakeRoom()
      requires Valid()
      modifies this, flags, keys, vals
      ensures Valid() && Contents() == old(Contents()) && slot.Keys == old(slot.Keys)
      ensures size == old(size) && nOccupied < upperBound
      ensures nBuckets == if old(nOccupied) < old(upperBound) then old(nBuckets) else Grown(old(nBuckets), old(size))
      ensures nOccupied == if old(nOccupied) < old(upperBound) then old(nOccupied) else old(size)
      ensures (flags == old(flags) || fresh(flags)) && (keys == old(keys) || fresh(keys))
      ensures (vals == old(vals) || fresh(vals))
    {
      if nOccupied >= upperBound {
        var requested := if nBuckets > size * 2 then nBuckets - 1 else nBuckets + 1;
        RoomAfter(State(), nBuckets, size, nOccupied, upperBound, requested);
        hide *;
        Resize(requested);
      }
    }

    method Take(x: nat, key: K, ghost s: nat) returns (ret: int)
      requires Valid() && x < nBuckets && nOccupied < upperBound && (key in slot ==> x == slot[key])
      requires key !in slot ==> Site(State(), hash(key), x, s)
      modifies this`size, this`nOccupied, this`slot, flags, keys
      ensures Valid() && key in slot && slot[key] == x
      ensures ret == match old(State()[x]) case Empty => 1 case Deleted => 2 case _ => 0
      ensures key in old(slot) ==> ret == 0 && Contents() == old(Contents()) && size == old(size)
      ensures key !in old(slot) ==>
        (ret == 1 || ret == 2) && Contents() == old(Contents())[key := vals[x]] && size == old(size) + 1
    {
      GoodShape(State(), keys[..], slot, hash);
      hide Probe, Count, IsPow2, Reach, UpperBound, SlotAt, PathFull, Good, Site;
      if key in slot { Found(key); } else { SiteIs(State(), hash(key), x, s); }
      if IsEmpty(flags[..], x) || IsDel(flags[..], x) {
        ret := if IsEmpty(flags[..], x) then 1 else 2;
        Occupy(x, key, s);
      } else {
        ret := 0;
      }
    }

    /** The key goes into a slot that is not live; an empty one is now occupied. */
    method Occupy(x: nat, key: K, ghost s: nat)
      requires Valid() && x < nBuckets && nOccupied < upperBound && key !in slot && State()[x] != Live
      requires s < nBuckets && x == Probe(hash(key), s, nBuckets) && PathFull(State(), hash(key), s)
      modifies this`size, this`nOccupied, this`slot, flags, keys
      ensures Valid() && slot == old(slot)[key := x] && Contents() == old(Contents())[key := vals[x]]
      ensures size == old(size) + 1 && nOccupied == old(nOccupied) + (if old(State()[x]) == Empty then 1 else 0)
    {
      hide Probe, Count, IsPow2, Reach, UpperBound, SlotAt, PathFull, Good;
      ghost var st, ks := State(), keys[..];
      CountUpdate(st, IsLive, x, Live);
      CountUpdate(st, IsFull, x, Live);
      GoodShape(st, ks, slot, hash);
      Insert(st, ks, slot, hash, key, s);
      if IsEmpty(flags[..], x) { nOccupied := nOccupied + 1; }
      keys[x] := key;
      SetLive(flags, x, nBuckets);
      size := size + 1;
      assert keys[..] == ks[x := key];
      slot := slot[key := x];
    }

    /** kh_resize: round up, refuse what is too small, and otherwise rehash in place. */
    method Resize(requested: nat)
      requires Valid()
      modifies this, flags, keys, vals
      ensures Valid() && Contents() == old(Contents()) && size == old(size)
      ensures var n := Granted(requested);
        if old(size) >= UpperBound(n) then nBuckets == old(nBuckets) && nOccupied == old(nOccupied)
        else nBuckets == n && nOccupied == size && upperBound == UpperBound(n)
      ensures (flags == old(flags) || fresh(flags)) && (keys == old(keys) || fresh(keys))
      ensures (vals == old(vals) || fresh(vals))
    {
      var n := RoundUp(requested);
      if n < 4 { n := 4; }
      assert IsPow2(n);
      if size >= UpperBound(n) { return; }
      Rebuild(n);
    }

    /** The rehashing part of kh_resize. */
    method Rebuild(n: nat)
      requires Valid() && IsPow2(n) && n >= 4 && size < UpperBound(n)
      modifies this`flags, this`keys, this`vals, this`nBuckets, this`nOccupied, this`upperBound, this`slot
      modifies flags, keys, vals
      ensures Valid() && Contents() == old(Contents()) && size == old(size)
      ensures nBuckets == n && nOccupied == size && upperBound == UpperBound(n)
      ensures (flags == old(flags) || fresh(flags)) && (keys == old(keys) || fresh(keys))
      ensures (vals == old(vals) || fresh(vals))
    {
      BoundBelow(n);
      EnoughWords(n);
      hide *;
      ghost var content := Contents();
      var newFlags := new bv32[FlagWords(n)];
      ClearFlags(newFlags, n);
      RehashInto(newFlags, n);
      Adopt(newFlags, n, content);
    }

    method RehashInto(newFlags: array<bv32>, n: nat)
      requires Valid() && IsPow2(n) && size < n <= 16 * newFlags.Length
      requires (keys as object) != newFlags && (vals as object) != newFlags && flags != newFlags
      requires forall i :: 0 <= i < n ==> Slots(newFlags[..], n)[i] == Empty
      modifies this`keys, this`vals, this`slot, flags, keys, vals, newFlags
      ensures keys.Length == vals.Length >= n
      ensures (keys as object) != (vals as object) && (keys as object) != newFlags && (vals as object) != newFlags
      ensures Good(Slots(newFlags[..], n), keys[..n], slot, hash) && slot.Keys == old(Contents()).Keys
      ensures forall k :: k in slot ==> slot[k] < n && vals[slot[k]] == old(Contents())[k]
      ensures Count(Slots(newFlags[..], n), IsFull) == Count(Slots(newFlags[..], n), IsLive) == size
      ensures (keys == old(keys) && vals == old(vals)) || (fresh(keys) && fresh(vals))
    {
      hide Count, Reach, SlotAt, IsPow2, UpperBound, Midway, Good;
      ghost var content := Contents();
      ghost var st, ks, vs := State(), keys[..], vals[..];
      SlotsInRange(st, ks, slot, hash);
      assert forall k :: k in slot ==> vs[slot[k]] == content[k];
      Expand(n);
      CountNone(Slots(newFlags[..], n), IsFull);
      assert Slots(flags[..], nBuckets) == st;
      ghost var place := StartRehash(st, Slots(newFlags[..], n), ks, vs, keys[..], vals[..], slot, content, hash);
      slot := Rehash(flags, nBuckets, newFlags, n, keys, vals, hash, place, content, size);
    }

    /** Switch to the new flags and give back what a smaller table does not need. */
    method Adopt(newFlags: array<bv32>, n: nat, ghost content: map<K, V>)
      requires keys.Length == vals.Length >= n && n >= 4 && IsPow2(n)
      requires size <= UpperBound(n) && n <= 16 * newFlags.Length
      requires (keys as object) != (vals as object) && (keys as object) != newFlags && (vals as object) != newFlags
      requires Good(Slots(newFlags[..], n), keys[..n], slot, hash) && slot.Keys == content.Keys
      requires forall k :: k in slot ==> slot[k] < n && vals[slot[k]] == content[k]
      requires Count(Slots(newFlags[..], n), IsFull) == Count(Slots(newFlags[..], n), IsLive) == size
      modifies this`flags, this`keys, this`vals, this`nBuckets, this`nOccupied, this`upperBound
      ensures Valid() && Contents() == content && nBuckets == n && nOccupied == size
      ensures upperBound == UpperBound(n) && flags == newFlags
      ensures (keys == old(keys) && vals == old(vals)) || (fresh(keys) && fresh(vals))
    {
      hide Count, Reach, SlotAt, IsPow2, UpperBound, Good;
      ghost var wide := vals[..];
      Shrink(n);
      flags, nBuckets, nOccupied, upperBound := newFlags, n, size, UpperBound(n);
      assert forall k :: k in slot ==> vals[slot[k]] == vals[..][slot[k]] == wide[slot[k]];
    }

    method Expand(n: nat)
      requires keys.Length == vals.Length && (keys as object) != (vals as object)
      modifies this`keys, this`vals
      ensures keys.Length == vals.Length >= n && keys.Length >= old(keys.Length)
      ensures keys[..old(keys.Length)] == old(keys[..]) && vals[..old(vals.Length)] == old(vals[..])
      ensures (keys as object) != (vals as object)
      ensures (keys == old(keys) && vals == old(vals)) || (fresh(keys) && fresh(vals))
    {
      if keys.Length < n {
        keys := Realloc(keys, n);
        vals := Realloc(vals, n);
      }
    }

    method Shrink(n: nat)
      requires keys.Length == vals.Length >= n && (keys as object) != (vals as object)
      modifies this`keys, this`vals
      ensures keys.Length == vals.Length == n && keys[..] == old(keys[..n]) && vals[..] == old(vals[..n])
      ensures (keys as object) != (vals as object)
      ensures (keys == old(keys) && vals == old(vals)) || (fresh(keys) && fresh(vals))
    {
      if keys.Length > n {
        keys := Realloc(keys, n);
        vals := Realloc(vals, n);
      }
    }
  }

  lemma LiveKey<K(!new)>(st: seq<Slot>, keys: seq<K>, slot: map<K, nat>, hash: K -> nat, x: nat)
    requires Good(st, keys, slot, hash) && x < |st| && st[x] == Live
    ensures keys[x] in slot && slot[keys[x]] == x
  {
  }

  lemma SlotsInRange<K(!new)>(st: seq<Slot>, keys: seq<K>, slot: map<K, nat>, hash: K -> nat)
    requires Good(st, keys, slot, hash)
    ensures |keys| == |st| && forall k :: k in slot ==> slot[k] < |st|
  {
  }

  lemma LiveSize(st: seq<Slot>, x: nat)
    requires x < |st| && st[x] == Live
    ensures Count(st, IsLive) > 0
  {
    if Count(st, IsLive) == 0 { CountZero(st, IsLive, x); }
  }

  lemma EnoughWords(n: nat)
    requires IsPow2(n)
    ensures n <= 16 * FlagWords(n)
  {
    if n >= 16 { Pow2Divides(n); }
  }

  /** krealloc: a block of another size with the same contents as far as they go. */
  method Realloc<T(0)>(a: array<T>, n: nat) returns (b: array<T>)
    ensures fresh(b) && b.Length == n
    ensures if a.Length <= n then b[..a.Length] == a[..] else b[..] == a[..n]
  {
    b := new T[n];
    var m := if a.Length < n then a.Length else n;
    forall i | 0 <= i < m {
      b[i] := a[i];
    }
  }

  lemma BoundBelow(n: nat)
    requires n >= 4
    ensures UpperBound(n) < n && n <= 2 * UpperBound(n) && n < UpperBound(2 * n)
  {
  }

  /** Whatever kh_put asks kh_resize for is granted and leaves room. */
  lemma RoomAfter(st: seq<Slot>, n: nat, size: nat, occupied: nat, bound: nat, requested: nat)
    requires if n == 0 then bound == 0 else IsPow2(n) && n >= 4 && bound == UpperBound(n)
    requires |st| == n && size == Count(st, IsLive) && occupied == Count(st, IsFull) && occupied <= bound
    requires requested == if n > size * 2 then n - 1 else n + 1
    ensures Granted(requested) == Grown(n, size) && size < UpperBound(Grown(n, size))
  {
    LiveIsFull(st);
    if n > 0 {
      BoundBelow(n);
      RoundUpAround(n);
    } else {
      assert RoundUp(1) <= 4;
    }
  }

  /** The number of buckets that kh_resize takes a request for. */
  function Granted(requested: nat): nat {
    if RoundUp(requested) < 4 then 4 else RoundUp(requested)
  }

  /** The size of a full table after kh_put made room. */
  function Grown(n: nat, size: nat): nat {
    if n == 0 then 4 else if n > 2 * size then n else 2 * n
  }

  // ---------- runs ----------

  datatype Op<K, V> = Set(key: K, value: V) | Unset(key: K) | Reset | Rebuilt(buckets: nat)

  /** What a run of operations means for the map. */
  function Meaning<K, V>(ops: seq<Op<K, V>>): map<K, V> {
    if ops == [] then map[]
    else
      var m := Meaning(ops[..|ops| - 1]);
      match ops[|ops| - 1]
      case Set(k, v) => m[k := v]
      case Unset(k) => m - {k}
      case Reset => map[]
      case Rebuilt(_) => m
  }

  /** Over every run the table holds exactly the map, and a lookup finds exactly what the map has. */
  method Replay<K(==, 0, !new), V(0, !new)>(hash: K -> nat, ops: seq<Op<K, V>>, probe: K)
    returns (t: HashTable<K, V>, found: nat)
    ensures t.Valid() && t.Contents() == Meaning(ops)
    ensures probe in Meaning(ops) <==> found != t.nBuckets
    ensures probe in Meaning(ops) ==>
      found < t.nBuckets && t.keys[found] == probe && t.vals[found] == Meaning(ops)[probe]
  {
    hide Good, Count, UpperBound, IsPow2, SlotAt, Slots;
    t := new HashTable(hash);
    var i := 0;
    while i < |ops|
      invariant i <= |ops| && fresh(t) && fresh(t.flags) && fresh(t.keys) && fresh(t.vals)
      invariant t.Valid() && t.Contents() == Meaning(ops[..i])
    {
      Step(t, ops[i]);
      assert ops[..i + 1][..i] == ops[..i];
      i := i + 1;
    }
    assert ops[..i] == ops;
    found := t.Get(probe);
    if probe in t.slot { t.Found(probe); }
  }

  method Step<K(==, 0, !new), V(0, !new)>(t: HashTable<K, V>, op: Op<K, V>)
    requires t.Valid()
    modifies t, t.flags, t.keys, t.vals
    ensures t.Valid()
    ensures t.Contents() == match op
      case Set(k, v) => old(t.Contents())[k := v]
      case Unset(k) => old(t.Contents()) - {k}
      case Reset => map[]
      case Rebuilt(_) => old(t.Contents())
    ensures (t.flags == old(t.flags) || fresh(t.flags)) && (t.keys == old(t.keys) || fresh(t.keys))
    ensures (t.vals == old(t.vals) || fresh(t.vals))
  {
    hide Good, Count, IsPow2, UpperBound, SlotAt, Slots;
    match op
    case Set(k, v) =>
      var x, ret := t.Put(k);
      t.Found(k);
      t.SetValue(x, v);
    case Unset(k) =>
      var x := t.Get(k);
      ghost var was := t.Contents();
      if k in t.slot { t.Found(k); } else { assert was - {k} == was; }
      t.Del(x);
    case Reset =>
      t.Clear();
    case Rebuilt(n) =>
      t.Resize(n);
  }
}
