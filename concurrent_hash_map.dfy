/**
 A hash map split into a fixed number of segments, each a string-keyed map,
 and a snapshot iterator over it. A key is routed to one segment by a seeded
 32-bit hash; Set, Get and Delete touch that segment only. The segments
 together stand for one finite map, `Contents()`.

 The per-segment reader-writer locks are not modelled: every operation is
 one sequential step.
 */
module ConcurrentMap {
  import opened Segments

  /** A value of Go's `any`: nil, or some boxed value. */
  datatype Any<T> = Nil | Boxed(val: T)

  datatype Option<T> = None | Some(value: T)

  /** A key paired with the value read for it. */
  datatype MapEntry<T> = MapEntry(key: string, value: Any<T>)

  /** What a lookup of `key` in `c` yields: its value, or nil when it is absent. */
  function Lookup<T>(c: map<string, Any<T>>, key: string): Any<T>
  {
    if key in c then c[key] else Nil
  }

  /**
   The keys of one segment as a row, each once, in an order left open
   (the order in which the runtime happens to enumerate the map).
   */
  method KeysOf<V>(segment: map<string, V>) returns (row: seq<string>)
    ensures IsKeyRow(row, segment)
  {
    row := [];
    var rest := segment.Keys;
    while rest != {}
      invariant NoDup(row)
      invariant Elems(row) + rest == segment.Keys
      invariant Elems(row) !! rest
      decreases |rest|
    {
      var k :| k in rest;
      row := row + [k];
      rest := rest - {k};
    }
  }

  class ConcurrentHashMap<T> {
    /** The segments; the array itself is never replaced, its elements are. */
    const segments: array<map<string, Any<T>>>
    const segmentCount: nat
    /** The seed passed to every hash call; always 0. */
    const seed: nat := 0
    const hash: Hash

    ghost predicate Valid()
      reads segments
    {
      && segmentCount > 0
      && segments.Length == segmentCount
      && Routed(segments[..], hash, seed)
    }

    /** The finite map that the segments together stand for. */
    ghost function Contents(): map<string, Any<T>>
      reads segments
      requires Valid()
    {
      UnionOf(segments[..])
    }

    /** What a lookup of `key` yields: its value, or nil when it is absent. */
    ghost function ValueOf(key: string): Any<T>
      reads segments
      requires Valid()
    {
      Lookup(Contents(), key)
    }

    /** The segment that owns `key`. */
    function IndexOf(key: string): (i: nat)
      requires segmentCount > 0
      ensures i < segmentCount
    {
      SegmentIndex(hash, seed, segmentCount, key)
    }

    /**
     A map with `segmentCount` empty segments. `capacity` only presizes the
     segments and has no effect on what the map holds.
     */
    constructor (segmentCount: nat, capacity: nat, hash: Hash)
      requires segmentCount > 0
      ensures Valid() && fresh(segments)
      ensures this.segmentCount == segmentCount && this.hash == hash
      ensures forall i :: 0 <= i < segmentCount ==> segments[i] == map[]
      ensures Contents() == map[]
    {
      var segs := new map<string, Any<T>>[segmentCount];
      for i := 0 to segmentCount
        invariant forall j :: 0 <= j < i ==> segs[j] == map[]
      {
        segs[i] := map[];
      }
      this.segments := segs;
      this.segmentCount := segmentCount;
      this.hash := hash;
      new;
      UnionOfEmpty(segments[..]);
    }

    /** Writes `value` at `key`, in the key's own segment only. */
    method Set(key: string, value: Any<T>)
      requires Valid()
      modifies segments
      ensures Valid()
      ensures Contents() == old(Contents())[key := value]
      ensures segments[IndexOf(key)] == old(segments[IndexOf(key)])[key := value]
      ensures forall j :: 0 <= j < segments.Length && j != IndexOf(key) ==> segments[j] == old(segments[j])
    {
      var index := IndexOf(key);
      ghost var before := segments[..];
      RoutedIsOnlyIn(before, hash, seed, key);
      UnionOfUpdate(before, index, key, value);
      segments[index] := segments[index][key := value];
      assert segments[..] == before[index := before[index][key := value]];
    }

    /** The value at `key` and whether `key` is present; nil when it is not. */
    method Get(key: string) returns (value: Any<T>, found: bool)
      requires Valid()
      ensures found <==> key in Contents()
      ensures found ==> value == Contents()[key]
      ensures !found ==> value == Nil
    {
      var index := IndexOf(key);
      RoutedIsOnlyIn(segments[..], hash, seed, key);
      UnionOfLookup(segments[..], key, index);
      found := key in segments[index];
      value := if found then segments[index][key] else Nil;
    }

    /** Removes `key` from its own segment; an absent key is no error. */
    method Delete(key: string)
      requires Valid()
      modifies segments
      ensures Valid()
      ensures Contents() == old(Contents()) - {key}
      ensures key !in old(Contents()) ==> Contents() == old(Contents())
      ensures segments[IndexOf(key)] == old(segments[IndexOf(key)]) - {key}
      ensures forall j :: 0 <= j < segments.Length && j != IndexOf(key) ==> segments[j] == old(segments[j])
    {
      var index := IndexOf(key);
      ghost var before := segments[..];
      RoutedIsOnlyIn(before, hash, seed, key);
      UnionOfRemove(before, index, key);
      segments[index] := segments[index] - {key};
      assert segments[..] == before[index := before[index] - {key}];
    }

    /**
     An iterator over a snapshot of the keys: one row per segment, row `i`
     listing the keys of segment `i`. The walk it will make visits every key
     of the map exactly once.
     */
    method CreateIterator() returns (it: ConcurrentHashMapIterator<T>)
      requires Valid()
      ensures fresh(it) && it.Valid() && it.concurrentMap == this
      ensures |it.keys| == segmentCount && it.rowIndex == 0 && it.colIndex == 0
      ensures forall i :: 0 <= i < segmentCount ==> IsKeyRow(it.keys[i], segments[i])
      ensures it.Remaining == Flatten(it.keys)
      ensures NoDup(it.Remaining)
      ensures Elems(it.Remaining) == Contents().Keys
      ensures |it.Remaining| == |Contents()|
    {
      var keys: seq<seq<string>> := [];
      for i := 0 to segments.Length
        invariant |keys| == i
        invariant forall j :: 0 <= j < i ==> IsKeyRow(keys[j], segments[j])
      {
        var row := KeysOf(segments[i]);
        keys := keys + [row];
      }
      RoutedIsDisjoint(segments[..], hash, seed);
      SnapshotExactlyOnce(segments[..], keys);
      it := new ConcurrentHashMapIterator(this, keys);
    }
  }

  /**
   A cursor (rowIndex, colIndex) over snapshotted key rows. Each step reads
   the key's value afresh from the live map.
   */
  class ConcurrentHashMapIterator<T> {
    const concurrentMap: ConcurrentHashMap<T>
    const keys: seq<seq<string>>
    var rowIndex: nat
    var colIndex: nat
    /** The keys still to be produced, in order. */
    ghost var Remaining: seq<string>

    /**
     The cursor never passes the last row, stays on column 0 of an empty row
     or past the last row, and otherwise points inside its row; what is left
     of the walk is the rest of the current row and then every later row.
     */
    ghost predicate Valid()
      reads this
    {
      && rowIndex <= |keys|
      && (rowIndex == |keys| ==> colIndex == 0 && Remaining == [])
      && (rowIndex < |keys| ==>
            && (colIndex == 0 || colIndex < |keys[rowIndex]|)
            && Remaining == keys[rowIndex][colIndex..] + Flatten(keys[rowIndex + 1..]))
    }

    constructor (concurrentMap: ConcurrentHashMap<T>, keys: seq<seq<string>>)
      ensures this.concurrentMap == concurrentMap && this.keys == keys
      ensures rowIndex == 0 && colIndex == 0
      ensures Valid() && Remaining == Flatten(keys)
    {
      this.concurrentMap := concurrentMap;
      this.keys := keys;
      rowIndex, colIndex := 0, 0;
      Remaining := Flatten(keys);
      new;
      if keys != [] {
        FlattenFrom(keys, 0);
      }
    }

    /**
     The next key with its current value, or None once every snapshotted key
     has been produced. Empty rows are skipped by recursion.
     */
    method Next() returns (entry: Option<MapEntry<T>>)
      requires Valid() && concurrentMap.Valid()
      modifies this
      decreases |keys| - rowIndex
      ensures Valid()
      ensures old(Remaining) == [] ==> entry == None && Remaining == []
      ensures old(Remaining) != [] ==>
        && entry == Some(MapEntry(old(Remaining)[0], concurrentMap.ValueOf(old(Remaining)[0])))
        && Remaining == old(Remaining)[1..]
      ensures old(rowIndex) >= |keys| ==> entry == None && rowIndex == old(rowIndex) && colIndex == old(colIndex)
    {
      if rowIndex >= |keys| {
        return None;
      }
      var row := keys[rowIndex];
      if |row| == 0 {
        rowIndex := rowIndex + 1;
        if rowIndex < |keys| {
          FlattenFrom(keys, rowIndex);
        }
        entry := Next();
        return;
      }
      var key := row[colIndex];
      ghost var rest := row[colIndex + 1..] + Flatten(keys[rowIndex + 1..]);
      assert Remaining == [key] + rest;
      var value, _ := concurrentMap.Get(key);
      if colIndex >= |row| - 1 {
        assert rest == Flatten(keys[rowIndex + 1..]);
        rowIndex := rowIndex + 1;
        colIndex := 0;
        if rowIndex < |keys| {
          FlattenFrom(keys, rowIndex);
        }
      } else {
        colIndex := colIndex + 1;
      }
      Remaining := rest;
      return Some(MapEntry(key, value));
    }
  }
}
