/**
 Clients of the segmented map and its iterator, written against the
 contracts alone: what a caller can conclude after Set, Get, Delete and a
 full pass of the iterator. The hash function is a parameter throughout,
 so each conclusion holds whatever the routing.
 */
module ConcurrentMapScenarios {
  import opened Segments
  import opened ConcurrentMap

  /** strconv.Itoa for one decimal digit. */
  function Itoa(n: nat): (s: string)
    requires n < 10
    ensures |s| == 1 && s[0] as int - '0' as int == n
  {
    [('0' as int + n) as char]
  }

  /** The digit a one-character key spells, read back. */
  function DigitOf(s: string): int
    requires |s| == 1
  {
    s[0] as int - '0' as int
  }

  /** A map whose keys are single digits below `bound`, each bound to its own digit value. */
  ghost predicate DigitsBelow(c: map<string, Any<int>>, bound: nat)
  {
    forall k :: k in c ==> |k| == 1 && 0 <= DigitOf(k) < bound && c[k] == Boxed(DigitOf(k))
  }

  /**
   Drives an iterator to the end, as a caller loops on Next until it yields
   nothing. The entries are the remaining snapshot keys, in order, each with
   the value the map holds for it at that moment, and the iterator is spent.
   */
  method Drain<T>(it: ConcurrentHashMapIterator<T>) returns (entries: seq<MapEntry<T>>)
    requires it.Valid() && it.concurrentMap.Valid()
    modifies it
    ensures it.Valid() && it.Remaining == []
    ensures |entries| == |old(it.Remaining)|
    ensures forall i :: 0 <= i < |entries| ==>
      entries[i] == MapEntry(old(it.Remaining)[i], it.concurrentMap.ValueOf(old(it.Remaining)[i]))
  {
    ghost var m := it.concurrentMap;
    ghost var c := m.Contents();
    ghost var all := it.Remaining;
    entries := [];
    var entry := it.Next();
    while entry != None
      invariant m.Valid() && m.Contents() == c
      invariant it.Valid() && |entries| <= |all|
      invariant forall i :: 0 <= i < |entries| ==> entries[i] == MapEntry(all[i], Lookup(c, all[i]))
      invariant entry.Some? ==>
        && |entries| < |all|
        && entry.value == MapEntry(all[|entries|], Lookup(c, all[|entries|]))
        && it.Remaining == all[|entries| + 1..]
      invariant entry.None? ==> it.Remaining == [] && |entries| == |all|
      decreases if entry.Some? then |it.Remaining| + 1 else 0
    {
      entries := entries + [entry.value];
      SuffixStep(all, |entries|);
      entry := it.Next();
    }
  }

  lemma SuffixStep(s: seq<string>, k: nat)
    requires k <= |s|
    ensures s[k..] == [] ==> k == |s|
    ensures k < |s| ==> s[k..][0] == s[k] && s[k..][1..] == s[k + 1..]
  {
  }

  /** Set "key1" in a fresh map of 8 segments: it is found with its value, "key2" is not. */
  method SetThenGet(hash: Hash)
    returns (v1: Any<string>, found1: bool, v2: Any<string>, found2: bool)
    ensures v1 == Boxed("value1") && found1
    ensures v2 == Nil && !found2
  {
    var m := new ConcurrentHashMap<string>(8, 1000, hash);
    m.Set("key1", Boxed("value1"));
    v1, found1 := m.Get("key1");
    v2, found2 := m.Get("key2");
  }

  /** Set the keys "0" .. "9", delete them all: none of them is found afterwards. */
  method SetThenDeleteDigits(hash: Hash) returns (found: seq<bool>)
    ensures |found| == 10
    ensures forall n :: 0 <= n < 10 ==> !found[n]
  {
    var m := new ConcurrentHashMap<int>(8, 1000, hash);
    for n := 0 to 10
      invariant m.Valid()
    {
      m.Set(Itoa(n), Boxed(n));
    }
    for n := 0 to 10
      invariant m.Valid()
      invariant forall j :: 0 <= j < n ==> Itoa(j) !in m.Contents()
    {
      m.Delete(Itoa(n));
    }
    found := [];
    for n := 0 to 10
      invariant m.Valid() && forall j :: 0 <= j < 10 ==> Itoa(j) !in m.Contents()
      invariant |found| == n
      invariant forall j :: 0 <= j < n ==> !found[j]
    {
      var _, f := m.Get(Itoa(n));
      found := found + [f];
    }
  }

  /** Over an empty map the first Next already yields nothing. */
  method IterateEmpty(hash: Hash) returns (first: Option<MapEntry<int>>)
    ensures first == None
  {
    var m := new ConcurrentHashMap<int>(8, 1000, hash);
    var it := m.CreateIterator();
    first := it.Next();
  }

  /**
   A key deleted after the snapshot is still produced, paired with nil, and
   the iterator then ends.
   */
  method DeletedAfterSnapshot(hash: Hash, v: int)
    returns (first: Option<MapEntry<int>>, second: Option<MapEntry<int>>)
    ensures first == Some(MapEntry("x", Nil))
    ensures second == None
  {
    var m := new ConcurrentHashMap<int>(8, 1000, hash);
    m.Set("x", Boxed(v));
    var it := m.CreateIterator();
    assert m.Contents().Keys == {"x"};
    SingleKeyRow(it.Remaining, "x");
    m.Delete("x");
    first := it.Next();
    second := it.Next();
  }

  /** Sets the keys "0" .. "9" to the values 0 .. 9 in a fresh map. */
  method NewDigitsMap(hash: Hash) returns (m: ConcurrentHashMap<int>)
    ensures fresh(m.segments) && m.Valid()
    ensures forall n :: 0 <= n < 10 ==> Itoa(n) in m.Contents()
    ensures DigitsBelow(m.Contents(), 10)
  {
    m := new ConcurrentHashMap<int>(8, 1000, hash);
    for i := 0 to 10
      invariant fresh(m.segments) && m.Valid()
      invariant forall n :: 0 <= n < i ==> Itoa(n) in m.Contents()
      invariant DigitsBelow(m.Contents(), i)
    {
      m.Set(Itoa(i), Boxed(i));
    }
  }

  /**
   A walk that lists the keys of a digits map once each, paired with their
   values, produces every digit entry once and nothing else.
   */
  lemma DigitsWalk(c: map<string, Any<int>>, walk: seq<string>, entries: seq<MapEntry<int>>)
    requires DigitsBelow(c, 10) && forall n :: 0 <= n < 10 ==> Itoa(n) in c
    requires NoDup(walk) && Elems(walk) == c.Keys && |entries| == |walk|
    requires forall i :: 0 <= i < |entries| ==> entries[i] == MapEntry(walk[i], Lookup(c, walk[i]))
    ensures forall i, j :: 0 <= i < j < |entries| ==> entries[i].key != entries[j].key
    ensures forall n :: 0 <= n < 10 ==> MapEntry(Itoa(n), Boxed(n)) in entries
    ensures forall e :: e in entries ==> exists n :: 0 <= n < 10 && e == MapEntry(Itoa(n), Boxed(n))
  {
    forall n | 0 <= n < 10
      ensures MapEntry(Itoa(n), Boxed(n)) in entries
    {
      assert Itoa(n) in Elems(walk);
      var i :| 0 <= i < |walk| && walk[i] == Itoa(n);
      assert entries[i] == MapEntry(Itoa(n), Boxed(n));
    }
    forall e | e in entries
      ensures exists n :: 0 <= n < 10 && e == MapEntry(Itoa(n), Boxed(n))
    {
      var i :| 0 <= i < |entries| && entries[i] == e;
      assert walk[i] in Elems(walk);
      var n := DigitOf(walk[i]);
      assert Itoa(n) == walk[i];
      assert e == MapEntry(Itoa(n), Boxed(n));
    }
  }

  /**
   Set the keys "0" .. "9" and drain an iterator: every key is produced
   exactly once, each with the value it was set to.
   */
  method IterateDigits(hash: Hash) returns (entries: seq<MapEntry<int>>)
    ensures forall i, j :: 0 <= i < j < |entries| ==> entries[i].key != entries[j].key
    ensures forall n :: 0 <= n < 10 ==> MapEntry(Itoa(n), Boxed(n)) in entries
    ensures forall e :: e in entries ==> exists n :: 0 <= n < 10 && e == MapEntry(Itoa(n), Boxed(n))
  {
    var m := NewDigitsMap(hash);
    var it := m.CreateIterator();
    ghost var walk := it.Remaining;
    ghost var c := m.Contents();
    entries := Drain(it);
    DigitsWalk(c, walk, entries);
  }
}
