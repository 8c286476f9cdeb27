/**
 The value-level view of a segmented hash map: how a key is routed to a
 segment, how the segments together form one finite map, and how the
 per-segment key rows of an iterator snapshot flatten into one row-major walk.
 */
module Segments {

  /** The range of a 32-bit unsigned hash digest. */
  type Uint32 = n: nat | n < 0x1_0000_0000

  /** A seeded 32-bit string hash, such as FarmHash's Hash32WithSeed. */
  type Hash = (string, nat) -> Uint32

  /** Routing: the segment that owns `key` is its hash modulo the number of segments. */
  function SegmentIndex(hash: Hash, seed: nat, segmentCount: nat, key: string): (i: nat)
    requires segmentCount > 0
    ensures i < segmentCount
    ensures hash(key, seed) < segmentCount ==> i == hash(key, seed)
  {
    hash(key, seed) % segmentCount
  }

  /** Every key sits in the segment that routing chooses for it. */
  ghost predicate Routed<V>(segs: seq<map<string, V>>, hash: Hash, seed: nat)
  {
    forall i, k :: 0 <= i < |segs| && k in segs[i] ==> SegmentIndex(hash, seed, |segs|, k) == i
  }

  /** `key` occurs in no segment other than segment `i`. */
  ghost predicate OnlyIn<V>(segs: seq<map<string, V>>, key: string, i: nat)
  {
    forall j :: 0 <= j < |segs| && j != i ==> key !in segs[j]
  }

  /** No key occurs in two different segments. */
  ghost predicate Disjoint<V>(segs: seq<map<string, V>>)
  {
    forall i, j, k :: 0 <= i < |segs| && 0 <= j < |segs| && i != j && k in segs[i] ==> k !in segs[j]
  }

  /** The one finite map that the segments stand for. */
  ghost function UnionOf<V>(segs: seq<map<string, V>>): map<string, V>
  {
    if segs == [] then map[] else segs[0] + UnionOf(segs[1..])
  }

  /** The elements of a key row. */
  ghost function Elems(s: seq<string>): set<string>
  {
    set x | x in s
  }

  /** A key row lists each of its keys once. */
  ghost predicate NoDup(s: seq<string>)
  {
    forall i, j :: 0 <= i < j < |s| ==> s[i] != s[j]
  }

  /** `row` lists exactly the keys of `segment`, each once, in some order. */
  ghost predicate IsKeyRow<V>(row: seq<string>, segment: map<string, V>)
  {
    NoDup(row) && Elems(row) == segment.Keys
  }

  /** Row-major concatenation of key rows. */
  function Flatten(rows: seq<seq<string>>): seq<string>
  {
    if rows == [] then [] else rows[0] + Flatten(rows[1..])
  }

  /** Under routing, a key can only be in the segment routing picks for it. */
  lemma RoutedIsOnlyIn<V>(segs: seq<map<string, V>>, hash: Hash, seed: nat, key: string)
    requires |segs| > 0 && Routed(segs, hash, seed)
    ensures OnlyIn(segs, key, SegmentIndex(hash, seed, |segs|, key))
  {
    RoutedIsDisjoint(segs, hash, seed);
  }

  /** Under routing, no key is held by two segments. */
  lemma RoutedIsDisjoint<V>(segs: seq<map<string, V>>, hash: Hash, seed: nat)
    requires |segs| > 0 && Routed(segs, hash, seed)
    ensures Disjoint(segs)
  {
    forall i, j, k | 0 <= i < |segs| && 0 <= j < |segs| && i != j && k in segs[i]
      ensures k !in segs[j]
    {
      assert SegmentIndex(hash, seed, |segs|, k) == i;
    }
  }

  /** A key that no segment holds is not in the union. */
  lemma {:induction false} UnionOfAbsent<V>(segs: seq<map<string, V>>, key: string)
    requires forall j :: 0 <= j < |segs| ==> key !in segs[j]
    ensures key !in UnionOf(segs)
  {
    if segs != [] {
      assert forall j :: 0 <= j < |segs[1..]| ==> segs[1..][j] == segs[j + 1];
      UnionOfAbsent(segs[1..], key);
    }
  }

  /** A key held by one segment only is found in the union with that segment's value. */
  lemma {:induction false} UnionOfLookup<V>(segs: seq<map<string, V>>, key: string, i: nat)
    requires i < |segs| && OnlyIn(segs, key, i)
    ensures key in UnionOf(segs) <==> key in segs[i]
    ensures key in segs[i] ==> UnionOf(segs)[key] == segs[i][key]
  {
    if i == 0 {
      UnionOfAbsent(segs[1..], key);
    } else {
      assert OnlyIn(segs[1..], key, i - 1) by {
        forall j | 0 <= j < |segs[1..]| && j != i - 1
          ensures key !in segs[1..][j]
        {
          assert segs[1..][j] == segs[j + 1];
        }
      }
      UnionOfLookup(segs[1..], key, i - 1);
    }
  }

  /** Writing a key into the segment that alone may hold it writes it into the union. */
  lemma {:induction false} UnionOfUpdate<V>(segs: seq<map<string, V>>, i: nat, key: string, value: V)
    requires i < |segs| && OnlyIn(segs, key, i)
    ensures UnionOf(segs[i := segs[i][key := value]]) == UnionOf(segs)[key := value]
  {
    var segs' := segs[i := segs[i][key := value]];
    if i == 0 {
      assert segs'[1..] == segs[1..];
      UnionOfLookup(segs, key, 0);
      UnionOfAbsent(segs[1..], key);
    } else {
      assert segs'[1..] == segs[1..][i - 1 := segs[1..][i - 1][key := value]];
      assert OnlyIn(segs[1..], key, i - 1) by {
        forall j | 0 <= j < |segs[1..]| && j != i - 1
          ensures key !in segs[1..][j]
        {
          assert segs[1..][j] == segs[j + 1];
        }
      }
      UnionOfUpdate(segs[1..], i - 1, key, value);
      assert key !in segs[0];
    }
  }

  /** Removing a key from the segment that alone may hold it removes it from the union. */
  lemma {:induction false} UnionOfRemove<V>(segs: seq<map<string, V>>, i: nat, key: string)
    requires i < |segs| && OnlyIn(segs, key, i)
    ensures UnionOf(segs[i := segs[i] - {key}]) == UnionOf(segs) - {key}
  {
    var segs' := segs[i := segs[i] - {key}];
    if i == 0 {
      assert segs'[1..] == segs[1..];
      UnionOfAbsent(segs[1..], key);
    } else {
      assert segs'[1..] == segs[1..][i - 1 := segs[1..][i - 1] - {key}];
      assert OnlyIn(segs[1..], key, i - 1) by {
        forall j | 0 <= j < |segs[1..]| && j != i - 1
          ensures key !in segs[1..][j]
        {
          assert segs[1..][j] == segs[j + 1];
        }
      }
      UnionOfRemove(segs[1..], i - 1, key);
      assert key !in segs[0];
    }
  }

  /** Segments that are all empty stand for the empty map. */
  lemma {:induction false} UnionOfEmpty<V>(segs: seq<map<string, V>>)
    requires forall i :: 0 <= i < |segs| ==> segs[i] == map[]
    ensures UnionOf(segs) == map[]
  {
    if segs != [] {
      UnionOfEmpty(segs[1..]);
    }
  }

  /** A duplicate-free row has as many elements as its set of elements. */
  lemma {:induction false} NoDupCard(s: seq<string>)
    requires NoDup(s)
    ensures |Elems(s)| == |s|
  {
    if s != [] {
      NoDupCard(s[1..]);
      assert Elems(s) == {s[0]} + Elems(s[1..]);
      assert s[0] !in Elems(s[1..]);
    }
  }

  /** A duplicate-free row holding exactly one key is that key alone. */
  lemma SingleKeyRow(s: seq<string>, key: string)
    requires NoDup(s) && Elems(s) == {key}
    ensures s == [key]
  {
    NoDupCard(s);
    assert s[0] in Elems(s);
  }

  lemma NoDupAppend(a: seq<string>, b: seq<string>)
    requires NoDup(a) && NoDup(b) && Elems(a) !! Elems(b)
    ensures NoDup(a + b) && Elems(a + b) == Elems(a) + Elems(b)
  {
    forall i, j | 0 <= i < j < |a + b|
      ensures (a + b)[i] != (a + b)[j]
    {
      if i < |a| && j >= |a| {
        assert (a + b)[i] in Elems(a) && (a + b)[j] in Elems(b);
      }
    }
  }

  /**
   Flattening key rows that list disjoint segments visits every key of the
   union exactly once: no key twice, no key missing, no key extra.
   */
  lemma {:induction false} SnapshotExactlyOnce<V>(segs: seq<map<string, V>>, rows: seq<seq<string>>)
    requires |rows| == |segs| && Disjoint(segs)
    requires forall i :: 0 <= i < |segs| ==> IsKeyRow(rows[i], segs[i])
    ensures NoDup(Flatten(rows))
    ensures Elems(Flatten(rows)) == UnionOf(segs).Keys
    ensures |Flatten(rows)| == |UnionOf(segs)|
  {
    if segs != [] {
      assert Disjoint(segs[1..]) by {
        forall i, j, k | 0 <= i < |segs[1..]| && 0 <= j < |segs[1..]| && i != j && k in segs[1..][i]
          ensures k !in segs[1..][j]
        {
          assert segs[1..][i] == segs[i + 1] && segs[1..][j] == segs[j + 1];
        }
      }
      forall i | 0 <= i < |segs[1..]|
        ensures IsKeyRow(rows[1..][i], segs[1..][i])
      {
        assert rows[1..][i] == rows[i + 1] && segs[1..][i] == segs[i + 1];
      }
      SnapshotExactlyOnce(segs[1..], rows[1..]);
      forall k | k in segs[0]
        ensures k !in UnionOf(segs[1..])
      {
        assert forall j :: 0 <= j < |segs[1..]| ==> segs[1..][j] == segs[j + 1];
        UnionOfAbsent(segs[1..], k);
      }
      NoDupAppend(rows[0], Flatten(rows[1..]));
      assert UnionOf(segs).Keys == segs[0].Keys + UnionOf(segs[1..]).Keys;
    }
    NoDupCard(Flatten(rows));
    assert |UnionOf(segs).Keys| == |UnionOf(segs)|;
  }

  /** The walk from row `r` on is row `r` followed by the walk from row `r + 1` on. */
  lemma FlattenFrom(rows: seq<seq<string>>, r: nat)
    requires r < |rows|
    ensures Flatten(rows[r..]) == rows[r] + Flatten(rows[r + 1..])
  {
    assert rows[r..][1..] == rows[r + 1..];
  }
}
