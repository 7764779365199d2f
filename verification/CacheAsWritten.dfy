/**
 The cache with the constructor of fileNode as written: it leaves `name` empty. Eviction then erases the
 key "" from the map instead of the evicted path, whose map entry goes on pointing to a destroyed node.
 This module says exactly when that matters.
 */
module CacheAsWritten {
  import opened Chars
  import opened LruSpec

  /** `list` holds the paths the nodes were made for; `keys` are the keys of the map. */
  datatype Written = Written(list: seq<Path>, keys: set<Path>)

  /** One request. None: the program follows an iterator to a destroyed node. */
  function StepAsWritten(capacity: int, w: Written, p: Path): Option<Written> {
    if p in w.keys then
      if p in w.list then Some(Written(MoveToFront(w.list, p), w.keys)) else None
    else if w.list != [] && |w.list| == capacity then
      Some(Written([p] + w.list[..|w.list| - 1], w.keys - {""} + {p}))
    else
      Some(Written([p] + w.list, w.keys + {p}))
  }

  function RunAsWritten(capacity: int, h: seq<Path>): Option<Written> {
    if h == [] then Some(Written([], {}))
    else
      match RunAsWritten(capacity, h[..|h| - 1])
      case None => None
      case Some(w) => StepAsWritten(capacity, w, h[|h| - 1])
  }

  /** Every request for a path used before comes while it is still cached. */
  predicate ReturnsHit(capacity: int, h: seq<Path>) {
    h == [] ||
    (var before, p := h[..|h| - 1], h[|h| - 1];
     ReturnsHit(capacity, before) && (p in before ==> capacity < 0 || |UsedSince(before, p)| < capacity))
  }

  function PathSet(h: seq<Path>): set<Path> {
    set p | p in h
  }

  /** As long as no evicted path is asked for again, the cache as written holds what it should; at the first
      such request it fails. */
  lemma {:induction false} AsWrittenExactly(capacity: int, h: seq<Path>)
    requires capacity != 0 && "" !in h
    ensures RunAsWritten(capacity, h) ==
            if ReturnsHit(capacity, h) then Some(Written(Keep(capacity, Recency(h)), PathSet(h))) else None
  {
    if h == [] {
      assert PathSet(h) == {};
    } else {
      var before, p := h[..|h| - 1], h[|h| - 1];
      assert h == before + [p];
      assert PathSet(h) == PathSet(before) + {p};
      AsWrittenExactly(capacity, before);
      if ReturnsHit(capacity, before) {
        NextAsWritten(capacity, before, p);
        assert Recency(h) == MoveToFront(Recency(before), p);
      }
    }
  }

  lemma NextAsWritten(capacity: int, before: seq<Path>, p: Path)
    requires capacity != 0 && "" !in before
    ensures var w := Written(Keep(capacity, Recency(before)), PathSet(before));
            StepAsWritten(capacity, w, p) ==
            if p in before ==> capacity < 0 || |UsedSince(before, p)| < capacity
            then Some(Written(Keep(capacity, MoveToFront(Recency(before), p)), PathSet(before) + {p})) else None
  {
    RecencyIsDistinct(before);
    CachedExactly(capacity, before, p);
    NextOnList(capacity, Recency(before), PathSet(before), p);
  }

  /** One request on the first `capacity` of all paths used, with a key for each of them. */
  lemma NextOnList(capacity: int, r: seq<Path>, keys: set<Path>, p: Path)
    requires capacity != 0 && Distinct(r) && "" !in keys && (p in Keep(capacity, r) ==> p in keys)
    ensures StepAsWritten(capacity, Written(Keep(capacity, r), keys), p) ==
            if p in keys ==> p in Keep(capacity, r)
            then Some(Written(Keep(capacity, MoveToFront(r, p)), keys + {p})) else None
  {
    KeepCommutes(capacity, r, p);
    assert keys - {""} == keys;
    assert p in keys ==> keys + {p} == keys;
  }

  /** A path is in the list iff it was used and few enough others were since. */
  lemma CachedExactly(capacity: int, h: seq<Path>, p: Path)
    requires capacity != 0
    ensures p in Keep(capacity, Recency(h)) <==> p in h && (capacity < 0 || |UsedSince(h, p)| < capacity)
  {
    RecencyIsDistinct(h);
    var r := Recency(h);
    var s := Keep(capacity, r);
    assert r[..|s|] == s;
    IndexOfInPrefix(r, |s|, p);
    if p in h {
      PlaceIsDistance(h, p);
    }
  }

  /** The map and the list agree iff nothing was ever evicted: no more distinct paths than fit. */
  lemma MapMatchesListExactly(capacity: int, h: seq<Path>)
    requires capacity != 0 && "" !in h && RunAsWritten(capacity, h).Some?
    ensures var w := RunAsWritten(capacity, h).value;
            w.keys == PathSet(w.list) <==> capacity < 0 || |PathSet(h)| <= capacity
  {
    AsWrittenExactly(capacity, h);
    RecencyIsDistinct(h);
    var r := Recency(h);
    var s := Keep(capacity, r);
    assert r[..|r|] == r && s[..|s|] == s;
    SetOfPrefix(r, |r|, PathSet(h));
    assert Distinct(s) && r[..|s|] == s;
    SetOfPrefix(s, |s|, PathSet(s));
    if |s| == |r| {
      assert PathSet(s) == PathSet(h);
    }
  }

  /** The shortest failure: with room for one file, a, b and a again. */
  lemma ThreeRequestsFail(a: Path, b: Path)
    requires a != b && a != "" && b != ""
    ensures RunAsWritten(1, [a, b]).Some? && RunAsWritten(1, [a, b, a]) == None
  {
    var h := [a, b, a];
    assert h[..2] == [a, b] && [a, b][..1] == [a] && [a][..0] == [];
    assert RunAsWritten(1, []) == Some(Written([], {}));
    assert RunAsWritten(1, [a]) == StepAsWritten(1, Written([], {}), a);
    assert RunAsWritten(1, [a]).value.list == [a] && RunAsWritten(1, [a]).value.keys == {a};
    assert RunAsWritten(1, [a, b]) == StepAsWritten(1, Written([a], {a}), b);
  }

  /** An eviction erases the empty key and no other, whichever path is evicted: that path keeps its key. */
  lemma EvictionErasesTheEmptyKey(capacity: int, w: Written, p: Path)
    requires w.list != [] && |w.list| == capacity && p !in w.keys && p != ""
    ensures var r := StepAsWritten(capacity, w, p);
            && r.Some? && r.value.list == [p] + w.list[..|w.list| - 1] && "" !in r.value.keys
            && forall q :: q != "" ==> (q in r.value.keys <==> q == p || q in w.keys)
  {
  }
}
