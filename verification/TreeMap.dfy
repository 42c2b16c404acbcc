/**
 * The sorted list of records is a map from keys to records, and what the tree's operations do to the list they do to
 * the map.
 */
module TreeMaps {
  import opened Pages
  import opened Levels
  import opened Trees

  /** The map a list of records stands for. */
  function AsMap(recs: seq<Record>, w: nat): map<int, Record>
    requires Keyed(recs, w)
  {
    if recs == [] then map[] else AsMap(recs[1..], w)[KeyOf(recs[0], w) := recs[0]]
  }

  /** In a sorted list each record is what its key maps to, and no other key is in the map. */
  lemma {:induction false} MapHolds(recs: seq<Record>, w: nat)
    requires SortedRecs(recs, w)
    ensures forall i :: 0 <= i < |recs| ==>
              KeyOf(recs[i], w) in AsMap(recs, w) && AsMap(recs, w)[KeyOf(recs[i], w)] == recs[i]
    ensures forall k :: k in AsMap(recs, w) ==> HasKey(recs, k, w)
  {
    hide KeyOf;
    if recs != [] {
      var t := recs[1..];
      MapHolds(t, w);
      forall k | k in AsMap(recs, w)
        ensures HasKey(recs, k, w)
      {
        if k in AsMap(t, w) {
          var i :| 0 <= i < |t| && KeyOf(t[i], w) == k;
          assert recs[i + 1] == t[i];
        }
      }
      forall i | 0 <= i < |recs|
        ensures KeyOf(recs[i], w) in AsMap(recs, w) && AsMap(recs, w)[KeyOf(recs[i], w)] == recs[i]
      {
        if i > 0 {
          assert recs[i] == t[i - 1];
        }
      }
    }
  }

  /** Looking a key up in the list and in the map is the same. */
  lemma FindIsLookup(recs: seq<Record>, key: int, w: nat)
    requires SortedRecs(recs, w)
    ensures HasKey(recs, key, w) <==> key in AsMap(recs, w)
    ensures Find(recs, key, w) == if key in AsMap(recs, w) then AsMap(recs, w)[key] else []
  {
    hide KeyOf, AsMap;
    MapHolds(recs, w);
    RankFinds(recs, key, w);
  }

  /** A map and a sorted list with the same entries. */
  lemma MapIs(recs: seq<Record>, m: map<int, Record>, w: nat)
    requires SortedRecs(recs, w)
    requires forall i :: 0 <= i < |recs| ==> KeyOf(recs[i], w) in m && m[KeyOf(recs[i], w)] == recs[i]
    requires forall k :: k in m ==> HasKey(recs, k, w)
    ensures AsMap(recs, w) == m
  {
    hide KeyOf, AsMap;
    MapHolds(recs, w);
    forall k
      ensures k in m <==> k in AsMap(recs, w)
      ensures k in m ==> m[k] == AsMap(recs, w)[k]
    {
      if k in m || k in AsMap(recs, w) {
        var i :| 0 <= i < |recs| && KeyOf(recs[i], w) == k;
      }
    }
  }

  /** Inserting a record whose key is new is a map update. */
  lemma PutIsUpdate(recs: seq<Record>, rec: Record, w: nat)
    requires SortedRecs(recs, w) && w <= |rec| && !HasKey(recs, KeyOf(rec, w), w)
    ensures SortedRecs(Put(recs, rec, w), w)
    ensures AsMap(Put(recs, rec, w), w) == AsMap(recs, w)[KeyOf(rec, w) := rec]
  {
    hide KeyOf, AsMap;
    PutSorted(recs, rec, w);
    MapHolds(recs, w);
    var key, p := KeyOf(rec, w), Put(recs, rec, w);
    var n, m := Rank(recs, key, w), AsMap(recs, w)[key := rec];
    forall k | k in m
      ensures HasKey(p, k, w)
    {
      if k == key {
        assert p[n] == rec;
      } else {
        var i :| 0 <= i < |recs| && KeyOf(recs[i], w) == k;
        assert p[if i < n then i else i + 1] == recs[i];
      }
    }
    forall i | 0 <= i < |p|
      ensures KeyOf(p[i], w) in m && m[KeyOf(p[i], w)] == p[i]
    {
      assert i != n ==> p[i] == recs[if i < n then i else i - 1];
    }
    MapIs(p, m, w);
  }

  lemma DropIsRemoval(recs: seq<Record>, n: nat, w: nat)
    requires SortedRecs(recs, w) && n < |recs|
    ensures var p := recs[..n] + recs[n + 1..];
            SortedRecs(p, w) && AsMap(p, w) == AsMap(recs, w) - {KeyOf(recs[n], w)}
  {
    hide KeyOf, AsMap;
    MapHolds(recs, w);
    var p, m := recs[..n] + recs[n + 1..], AsMap(recs, w) - {KeyOf(recs[n], w)};
    forall i | 0 <= i < |p|
      ensures p[i] == recs[if i < n then i else i + 1]
    {
    }
    forall k | k in m
      ensures HasKey(p, k, w)
    {
      var i :| 0 <= i < |recs| && KeyOf(recs[i], w) == k;
      assert p[if i < n then i else i - 1] == recs[i];
    }
    MapIs(p, m, w);
  }

  /** Removing a key is taking it out of the map. */
  lemma WithoutIsRemoval(recs: seq<Record>, key: int, w: nat)
    requires SortedRecs(recs, w)
    ensures SortedRecs(Without(recs, key, w), w)
    ensures AsMap(Without(recs, key, w), w) == AsMap(recs, w) - {key}
  {
    hide KeyOf, AsMap, Rank;
    MapHolds(recs, w);
    RankFinds(recs, key, w);
    if HasKey(recs, key, w) {
      DropIsRemoval(recs, Rank(recs, key, w), w);
    }
  }

  lemma EmptyMap(recs: seq<Record>, w: nat)
    requires Keyed(recs, w)
    ensures AsMap(recs, w) == map[] <==> recs == []
  {
    assert recs != [] ==> KeyOf(recs[0], w) in AsMap(recs, w);
  }

  /** A sorted list is determined by its map: the tree has no other freedom than where its pages are cut. */
  lemma {:induction false} SameMapSameList(a: seq<Record>, b: seq<Record>, w: nat)
    requires SortedRecs(a, w) && SortedRecs(b, w) && AsMap(a, w) == AsMap(b, w)
    ensures a == b
    decreases |a|
  {
    hide KeyOf;
    MapHolds(a, w);
    MapHolds(b, w);
    if a == [] {
      EmptyMap(b, w);
      EmptyMap(a, w);
    } else if b == [] {
      EmptyMap(a, w);
      EmptyMap(b, w);
    } else {
      assert HasKey(b, KeyOf(a[0], w), w) && HasKey(a, KeyOf(b[0], w), w);
      assert a[0] == b[0];
      TailMap(a, w);
      TailMap(b, w);
      SameMapSameList(a[1..], b[1..], w);
      assert a == [a[0]] + a[1..] && b == [b[0]] + b[1..];
    }
  }

  lemma TailMap(recs: seq<Record>, w: nat)
    requires SortedRecs(recs, w) && recs != []
    ensures SortedRecs(recs[1..], w) && AsMap(recs[1..], w) == AsMap(recs, w) - {KeyOf(recs[0], w)}
  {
    hide KeyOf;
    var t := recs[1..];
    MapHolds(t, w);
    assert KeyOf(recs[0], w) !in AsMap(t, w);
  }
}
