/**
 The file cache as a plain list of entries, most recently used first, and what a run of requests makes of
 it. A negative capacity never evicts (the list's size is compared with it for equality, as an unsigned
 number); capacity 0 is excluded: the program then takes the last entry of an empty list.
 */
module LruSpec {

  type Path = string
  type File = string

  datatype Entry = Entry(path: Path, file: File)

  /** A request for a path, and what opening the file would yield at that moment. */
  datatype Access = Access(path: Path, file: File)

  function Names(s: seq<Entry>): seq<Path> {
    seq(|s|, i requires 0 <= i < |s| => s[i].path)
  }

  predicate Distinct(s: seq<Path>) {
    forall i, j | 0 <= i < j < |s| :: s[i] != s[j]
  }

  /** The position of p, or |s|. */
  function IndexOf(s: seq<Path>, p: Path): (i: nat)
    ensures i <= |s| && (i < |s| ==> s[i] == p) && p !in s[..i]
    ensures i < |s| <==> p in s
  {
    if s == [] || s[0] == p then 0
    else
      var i := 1 + IndexOf(s[1..], p);
      assert s[..i] == [s[0]] + s[1..][..i - 1];
      i
  }

  function Without<T>(s: seq<T>, i: nat): seq<T>
    requires i < |s|
  {
    s[..i] + s[i + 1..]
  }

  /** filecaches::get on the list. */
  function GetSpec(s: seq<Entry>, p: Path): seq<Entry> {
    var i := IndexOf(Names(s), p);
    if i < |s| then [s[i]] + Without(s, i) else s
  }

  /** filecaches::set on the list. */
  function SetSpec(capacity: int, s: seq<Entry>, p: Path, f: File): seq<Entry> {
    var i := IndexOf(Names(s), p);
    if i < |s| then [Entry(p, f)] + Without(s, i)
    else if s != [] && |s| == capacity then [Entry(p, f)] + s[..|s| - 1]
    else [Entry(p, f)] + s
  }

  predicate Hit(s: seq<Entry>, p: Path) {
    IndexOf(Names(s), p) < |s|
  }

  /** host::serve: a hit uses the cached file, anything else loads it. */
  function ServeSpec(capacity: int, s: seq<Entry>, a: Access): seq<Entry> {
    if Hit(s, a.path) then GetSpec(s, a.path) else SetSpec(capacity, s, a.path, a.file)
  }

  function ServedFile(s: seq<Entry>, a: Access): File {
    var i := IndexOf(Names(s), a.path);
    if i < |s| then s[i].file else a.file
  }

  function Run(capacity: int, h: seq<Access>): seq<Entry> {
    if h == [] then [] else ServeSpec(capacity, Run(capacity, h[..|h| - 1]), h[|h| - 1])
  }

  /** The second look-up of a hit finds the same entry, in front, and changes nothing. */
  lemma GetTwice(s: seq<Entry>, p: Path)
    requires Hit(s, p)
    ensures GetSpec(GetSpec(s, p), p) == GetSpec(s, p) && Hit(GetSpec(s, p), p)
    ensures GetSpec(s, p)[0] == s[IndexOf(Names(s), p)]
  {
    var t := GetSpec(s, p);
    assert Names(t)[0] == p;
    IndexOfFirst(Names(t), p, 0);
    assert [t[0]] + Without(t, 0) == t;
  }

  lemma SetCached(capacity: int, s: seq<Entry>, p: Path, f: File)
    requires Hit(s, p)
    ensures var i := IndexOf(Names(s), p); SetSpec(capacity, s, p, f) == [Entry(p, f)] + Without(s[i := Entry(p, f)], i)
  {
    var i := IndexOf(Names(s), p);
    assert Without(s[i := Entry(p, f)], i) == Without(s, i);
  }

  // ---------------------------------------------------------------- recency

  function Paths(h: seq<Access>): seq<Path> {
    seq(|h|, i requires 0 <= i < |h| => h[i].path)
  }

  function MoveToFront(s: seq<Path>, p: Path): seq<Path> {
    var i := IndexOf(s, p);
    [p] + if i < |s| then Without(s, i) else s
  }

  /** The distinct paths of a history, the one used last first. */
  function Recency(h: seq<Path>): seq<Path> {
    if h == [] then [] else MoveToFront(Recency(h[..|h| - 1]), h[|h| - 1])
  }

  /** The first `capacity` elements; all of them if it is negative. */
  function Keep<T>(capacity: int, s: seq<T>): seq<T> {
    if 0 <= capacity < |s| then s[..capacity] else s
  }

  /** The position of the last use of p in h, or -1. */
  function LastUse(h: seq<Path>, p: Path): int {
    if h == [] then -1 else if h[|h| - 1] == p then |h| - 1 else LastUse(h[..|h| - 1], p)
  }

  /** The distinct paths used since the last use of p. */
  function UsedSince(h: seq<Path>, p: Path): set<Path> {
    if h == [] || h[|h| - 1] == p then {} else {h[|h| - 1]} + UsedSince(h[..|h| - 1], p)
  }

  lemma IndexOfFirst(s: seq<Path>, p: Path, i: nat)
    requires i < |s| && s[i] == p && p !in s[..i]
    ensures IndexOf(s, p) == i
  {
  }

  lemma IndexOfInPrefix(r: seq<Path>, n: nat, p: Path)
    requires n <= |r|
    ensures IndexOf(r[..n], p) == if IndexOf(r, p) < n then IndexOf(r, p) else n
  {
    var i, j := IndexOf(r, p), IndexOf(r[..n], p);
    if i < n {
      assert r[..n][..i] == r[..i];
      IndexOfFirst(r[..n], p, i);
    } else {
      forall k | 0 <= k < n ensures r[..n][k] != p { assert r[k] == r[..i][k]; }
    }
  }

  /** Where the element at place j >= 1 after moving the one at place i to the front came from. */
  function CameFrom(i: nat, j: nat): nat
    requires j >= 1
  {
    if j - 1 < i then j - 1 else j
  }

  lemma MovedAt<T>(s: seq<T>, x: T, i: nat, j: nat)
    requires i < |s| && 1 <= j <= |s| - 1
    ensures ([x] + Without(s, i))[j] == s[CameFrom(i, j)]
  {
  }

  lemma MovedElement(s: seq<Path>, p: Path, j: nat)
    requires 1 <= j < |MoveToFront(s, p)|
    ensures var from := CameFrom(IndexOf(s, p), j); from < |s| && MoveToFront(s, p)[j] == s[from]
  {
    if IndexOf(s, p) < |s| { MovedAt(s, p, IndexOf(s, p), j); }
  }

  lemma MoveToFrontIsDistinct(s: seq<Path>, p: Path)
    requires Distinct(s)
    ensures Distinct(MoveToFront(s, p))
  {
    var i := IndexOf(s, p);
    var t := MoveToFront(s, p);
    forall j, k | 0 <= j < k < |t| ensures t[j] != t[k] {
      MovedElement(s, p, k);
      if j == 0 {
        assert i < |s| ==> CameFrom(i, k) != i;
        assert i == |s| ==> s[..i] == s;
      } else {
        MovedElement(s, p, j);
      }
    }
  }

  lemma MoveToFrontMembers(s: seq<Path>, p: Path, q: Path)
    ensures q in MoveToFront(s, p) <==> q == p || q in s
  {
    var i := IndexOf(s, p);
    var t := MoveToFront(s, p);
    if q in s {
      var k :| 0 <= k < |s| && s[k] == q;
      if k != i {
        var j := if k < i then k + 1 else k;
        MovedElement(s, p, j);
        assert t[j] == q;
      } else {
        assert t[0] == q;
      }
    }
    if q in t {
      var k :| 0 <= k < |t| && t[k] == q;
      if k > 0 { MovedElement(s, p, k); }
    }
  }

  lemma {:induction false} RecencyIsDistinct(h: seq<Path>)
    ensures Distinct(Recency(h))
    ensures forall q :: q in Recency(h) <==> q in h
  {
    if h != [] {
      var before, p := h[..|h| - 1], h[|h| - 1];
      assert h == before + [p];
      RecencyIsDistinct(before);
      MoveToFrontIsDistinct(Recency(before), p);
      forall q ensures q in Recency(h) <==> q in h { MoveToFrontMembers(Recency(before), p, q); }
    }
  }

  lemma {:induction false} LastUseOfUsed(h: seq<Path>, p: Path)
    ensures -1 <= LastUse(h, p) < |h|
    ensures p in h <==> LastUse(h, p) >= 0
  {
    if h != [] {
      LastUseOfUsed(h[..|h| - 1], p);
      assert h == h[..|h| - 1] + [h[|h| - 1]];
    }
  }

  /** Recency really is the order of last use. */
  lemma {:induction false} RecencyIsByLastUse(h: seq<Path>)
    ensures forall i, j | 0 <= i < j < |Recency(h)| :: LastUse(h, Recency(h)[i]) > LastUse(h, Recency(h)[j])
  {
    if h != [] {
      var before, p := h[..|h| - 1], h[|h| - 1];
      var r, t := Recency(before), Recency(h);
      RecencyIsByLastUse(before);
      RecencyIsDistinct(h);
      var k := IndexOf(r, p);
      forall i, j | 0 <= i < j < |t| ensures LastUse(h, t[i]) > LastUse(h, t[j]) {
        assert t[j] != t[0];
        MovedElement(r, p, j);
        LastUseOfUsed(before, t[j]);
        if i > 0 {
          assert t[i] != t[0];
          MovedElement(r, p, i);
          assert LastUse(before, r[CameFrom(k, i)]) > LastUse(before, r[CameFrom(k, j)]);
        }
      }
    }
  }

  /** A path's place in the recency order is the number of distinct paths used since. */
  lemma {:induction false} PlaceIsDistance(h: seq<Path>, p: Path)
    requires p in h
    ensures IndexOf(Recency(h), p) == |UsedSince(h, p)|
    ensures forall q :: q in UsedSince(h, p) <==> q in Recency(h)[..IndexOf(Recency(h), p)]
  {
    var before, last := h[..|h| - 1], h[|h| - 1];
    assert h == before + [last];
    if last != p {
      PlaceIsDistance(before, p);
      RecencyIsDistinct(before);
      RecencyIsDistinct(h);
      PlaceAfterMove(Recency(before), last, p, UsedSince(before, p));
    }
  }

  /** Moving another path to the front adds it to what stands before p. */
  lemma PlaceAfterMove(r: seq<Path>, last: Path, p: Path, since: set<Path>)
    requires Distinct(r) && p in r && p != last && Distinct(MoveToFront(r, last))
    requires forall q :: q in since <==> q in r[..IndexOf(r, p)]
    ensures var t := MoveToFront(r, last);
            && IndexOf(t, p) == |{last} + since|
            && forall q :: q in {last} + since <==> q in t[..IndexOf(t, p)]
  {
    var t := MoveToFront(r, last);
    var i, k := IndexOf(r, p), IndexOf(r, last);
    var place := if k < i then i else i + 1;
    MovedElement(r, last, place);
    DistinctPlace(t, p, place);
    forall q ensures q in {last} + since <==> q in t[..place] {
      if k < i { ShiftedBehind(r, last, i, q); } else { ShiftedBefore(r, last, i); }
    }
    SetOfPrefix(t, place, {last} + since);
  }

  lemma DistinctPlace(t: seq<Path>, p: Path, place: nat)
    requires Distinct(t) && place < |t| && t[place] == p
    ensures IndexOf(t, p) == place
  {
    forall j | 0 <= j < place ensures t[..place][j] != p { assert t[j] != t[place]; }
    IndexOfFirst(t, p, place);
  }

  lemma ShiftedBefore(r: seq<Path>, last: Path, i: nat)
    requires i < |r| && i <= IndexOf(r, last) && r[i] != last
    ensures MoveToFront(r, last)[..i + 1] == [last] + r[..i]
  {
  }

  lemma ShiftedBehind(r: seq<Path>, last: Path, i: nat, q: Path)
    requires i < |r| && IndexOf(r, last) < i
    ensures q in MoveToFront(r, last)[..i] <==> q == last || q in r[..i]
  {
    MovedPrefix(r, IndexOf(r, last), i, q);
  }

  lemma MovedPrefix(r: seq<Path>, k: nat, i: nat, q: Path)
    requires k < i < |r|
    ensures q in ([r[k]] + Without(r, k))[..i] <==> q in r[..i]
  {
    assert ([r[k]] + Without(r, k))[..i] == [r[k]] + (r[..k] + r[k + 1..i]);
    assert r[..i] == r[..k] + ([r[k]] + r[k + 1..i]);
  }

  lemma {:induction false} SetOfPrefix(t: seq<Path>, n: nat, s: set<Path>)
    requires Distinct(t) && n <= |t| && forall q :: q in s <==> q in t[..n]
    ensures |s| == n
  {
    if n == 0 {
      assert s == {};
    } else {
      var q := t[n - 1];
      assert t[..n] == t[..n - 1] + [q];
      assert q !in t[..n - 1];
      SetOfPrefix(t, n - 1, s - {q});
    }
  }

  // ---------------------------------------------------------------- the cache is the recent part of the history

  lemma FirstOfMoved(p: Path, s: seq<Path>, n: nat)
    requires 0 < n <= |s| + 1
    ensures ([p] + s)[..n] == [p] + s[..n - 1]
  {
  }

  lemma WithoutOfPrefix(r: seq<Path>, i: nat, n: nat)
    requires i < n <= |r|
    ensures Without(r, i)[..n - 1] == Without(r[..n], i)
  {
  }

  lemma WithoutBehind(r: seq<Path>, i: nat, n: nat)
    requires 0 < n <= i < |r|
    ensures Without(r, i)[..n - 1] == r[..n - 1]
  {
  }

  /** One request on a truncated recency order is the truncation of one request on the whole. */
  lemma KeepCommutes(capacity: int, r: seq<Path>, p: Path)
    requires capacity != 0 && Distinct(r)
    ensures var s := Keep(capacity, r);
            Keep(capacity, MoveToFront(r, p)) ==
            if IndexOf(s, p) < |s| then MoveToFront(s, p)
            else if s != [] && |s| == capacity then [p] + s[..|s| - 1]
            else [p] + s
  {
    var s := Keep(capacity, r);
    var i := IndexOf(r, p);
    IndexOfInPrefix(r, |s|, p);
    assert r[..|s|] == s;
    if i < |s| {
      if |s| < |r| {
        FirstOfMoved(p, Without(r, i), capacity);
        WithoutOfPrefix(r, i, capacity);
      }
    } else if |s| < |r| {
      if i < |r| {
        FirstOfMoved(p, Without(r, i), capacity);
        WithoutBehind(r, i, capacity);
      } else {
        FirstOfMoved(p, r, capacity);
      }
      assert s[..capacity - 1] == r[..capacity - 1];
    } else {
      assert i == |r|;
    }
  }

  lemma NamesOfMoved(s: seq<Entry>, i: nat, e: Entry)
    requires i < |s|
    ensures Names([e] + Without(s, i)) == [e.path] + Without(Names(s), i)
  {
  }

  lemma NamesOfPushed(s: seq<Entry>, e: Entry)
    ensures Names([e] + s) == [e.path] + Names(s)
    ensures s != [] ==> Names(s[..|s| - 1]) == Names(s)[..|s| - 1]
  {
  }

  lemma NamesOfServe(capacity: int, s: seq<Entry>, a: Access)
    requires capacity != 0
    ensures var n := Names(s);
            Names(ServeSpec(capacity, s, a)) ==
            if IndexOf(n, a.path) < |n| then MoveToFront(n, a.path)
            else if n != [] && |n| == capacity then [a.path] + n[..|n| - 1]
            else [a.path] + n
  {
    var i := IndexOf(Names(s), a.path);
    var e := Entry(a.path, a.file);
    if i < |s| {
      NamesOfMoved(s, i, s[i]);
    } else if s != [] && |s| == capacity {
      NamesOfPushed(s[..|s| - 1], e);
      NamesOfPushed(s, e);
    } else {
      NamesOfPushed(s, e);
    }
  }

  /** After any run of requests from an empty cache, it holds exactly the most recently used paths, in the
      order of their last use: as many as fit. */
  lemma {:induction false} CacheIsRecency(capacity: int, h: seq<Access>)
    requires capacity != 0
    ensures Names(Run(capacity, h)) == Keep(capacity, Recency(Paths(h)))
  {
    if h != [] {
      var before, a := h[..|h| - 1], h[|h| - 1];
      CacheIsRecency(capacity, before);
      assert Paths(h)[..|h| - 1] == Paths(before) && Paths(h)[|h| - 1] == a.path;
      RecencyIsDistinct(Paths(before));
      KeepCommutes(capacity, Recency(Paths(before)), a.path);
      NamesOfServe(capacity, Run(capacity, before), a);
    }
  }

  /** A request hits iff its path was used before and fewer distinct paths than the capacity since. */
  lemma HitExactly(capacity: int, h: seq<Access>, p: Path)
    requires capacity != 0
    ensures Hit(Run(capacity, h), p) <==>
            p in Paths(h) && (capacity < 0 || |UsedSince(Paths(h), p)| < capacity)
  {
    CacheIsRecency(capacity, h);
    RecencyIsDistinct(Paths(h));
    var r := Recency(Paths(h));
    var s := Keep(capacity, r);
    assert |s| == |Run(capacity, h)|;
    assert r[..|s|] == s;
    IndexOfInPrefix(r, |s|, p);
    if p in Paths(h) {
      PlaceIsDistance(Paths(h), p);
    }
  }

  /** A smaller cache holds a prefix of what a larger one holds after the same requests. */
  lemma SmallerIsPrefix(small: int, large: int, h: seq<Access>)
    requires 0 < small && (small <= large || large < 0)
    ensures Names(Run(small, h)) <= Names(Run(large, h))
  {
    CacheIsRecency(small, h);
    CacheIsRecency(large, h);
  }

  /** The content of a cached path is what the last request that missed it loaded. */
  function Loaded(capacity: int, h: seq<Access>, p: Path): File {
    if h == [] then ""
    else
      var before, a := h[..|h| - 1], h[|h| - 1];
      if a.path == p && !Hit(Run(capacity, before), p) then a.file else Loaded(capacity, before, p)
  }

  /** Where the entries of the list after a request come from. */
  lemma EntryBefore(capacity: int, s: seq<Entry>, a: Access, k: nat) returns (j: nat)
    requires capacity != 0 && k < |ServeSpec(capacity, s, a)|
    requires Hit(s, a.path) || k > 0
    ensures j < |s| && ServeSpec(capacity, s, a)[k] == s[j]
    ensures !Hit(s, a.path) ==> s[j].path != a.path
  {
    var i := IndexOf(Names(s), a.path);
    if i < |s| {
      j := if k == 0 then i else CameFrom(i, k);
      if k > 0 { MovedAt(s, s[i], i, k); }
    } else {
      j := k - 1;
      assert Names(s)[j] == s[j].path;
    }
  }

  lemma {:induction false} CachedFileIsLoaded(capacity: int, h: seq<Access>, k: nat)
    requires capacity != 0 && k < |Run(capacity, h)|
    ensures Run(capacity, h)[k].file == Loaded(capacity, h, Run(capacity, h)[k].path)
  {
    var before, a := h[..|h| - 1], h[|h| - 1];
    var s := Run(capacity, before);
    if Hit(s, a.path) || k > 0 {
      var j := EntryBefore(capacity, s, a, k);
      CachedFileIsLoaded(capacity, before, j);
    }
  }

  /** What a whole history is served, request by request. */
  function ServedAll(capacity: int, h: seq<Access>): seq<File> {
    if h == [] then []
    else
      var before := h[..|h| - 1];
      ServedAll(capacity, before) + [ServedFile(Run(capacity, before), h[|h| - 1])]
  }

  lemma {:induction false} ServedFromRun(capacity: int, h: seq<Access>, i: nat)
    requires i < |h|
    ensures |ServedAll(capacity, h)| == |h| && ServedAll(capacity, h)[i] == ServedFile(Run(capacity, h[..i]), h[i])
    decreases |h|
  {
    var before := h[..|h| - 1];
    if before != [] { ServedFromRun(capacity, before, if i < |before| then i else 0); }
    assert i < |before| ==> h[..i] == before[..i];
    assert |ServedAll(capacity, before)| == |before|;
  }

  /** Every request is served what the last request that missed its path loaded: itself, if it missed. */
  lemma ServedExactly(capacity: int, h: seq<Access>, i: nat)
    requires capacity != 0 && i < |h|
    ensures |ServedAll(capacity, h)| == |h|
    ensures ServedAll(capacity, h)[i] == Loaded(capacity, h[..i + 1], h[i].path)
  {
    ServedFromRun(capacity, h, i);
    LastIsServed(capacity, h[..i], h[i]);
    assert h[..i] + [h[i]] == h[..i + 1];
  }

  lemma LastIsServed(capacity: int, before: seq<Access>, a: Access)
    requires capacity != 0
    ensures ServedFile(Run(capacity, before), a) == Loaded(capacity, before + [a], a.path)
  {
    assert (before + [a])[..|before|] == before;
    var s := Run(capacity, before);
    var k := IndexOf(Names(s), a.path);
    if k < |s| {
      CachedFileIsLoaded(capacity, before, k);
      assert s[k].path == Names(s)[k];
    }
  }

  /** A path asked for twice in a row is served once from the file system. */
  lemma SecondIsCached(capacity: int, p: Path, first: File, second: File)
    requires capacity != 0
    ensures ServedAll(capacity, [Access(p, first), Access(p, second)]) == [first, first]
  {
    var h := [Access(p, first), Access(p, second)];
    assert h[..1] == [Access(p, first)] && h[..1][..0] == [];
    assert Run(capacity, []) == [] && Names([]) == [];
    assert Run(capacity, h[..1]) == [Entry(p, first)];
    assert Names([Entry(p, first)])[0] == p;
    assert ServedAll(capacity, h[..1]) == [first];
  }

  /** The file cached for a path, if it is cached. */
  function CachedFile(s: seq<Entry>, p: Path): seq<File> {
    var i := IndexOf(Names(s), p);
    if i < |s| then [s[i].file] else []
  }

  /** Looking up changes no file. */
  lemma GetKeepsFiles(s: seq<Entry>, p: Path, q: Path)
    requires Distinct(Names(s))
    ensures CachedFile(GetSpec(s, p), q) == CachedFile(s, q)
  {
    var i := IndexOf(Names(s), p);
    if i < |s| { MovedKeepsFiles(s, i, s[i], q); }
  }

  lemma MovedKeepsFiles(s: seq<Entry>, i: nat, e: Entry, q: Path)
    requires i < |s| && Distinct(Names(s)) && e.path == s[i].path
    ensures CachedFile([e] + Without(s, i), q) == if q == e.path then [e.file] else CachedFile(s, q)
  {
    var t, names := [e] + Without(s, i), Names(s);
    NamesOfMoved(s, i, e);
    assert names[i] == e.path;
    DistinctPlace(names, e.path, i);
    assert Names(t) == MoveToFront(names, e.path);
    MoveToFrontIsDistinct(names, e.path);
    var k := IndexOf(names, q);
    if q == e.path {
      DistinctPlace(Names(t), q, 0);
    } else if k < |s| {
      var j := if k < i then k + 1 else k;
      MovedAt(s, e, i, j);
      assert Names(t)[j] == t[j].path == names[k] == q;
      DistinctPlace(Names(t), q, j);
    } else {
      MoveToFrontMembers(names, e.path, q);
    }
  }

  /** Setting a path gives it the new file; every other path keeps its own, but for the one evicted: the last of a
      full list, if the path is new. */
  lemma SetExactly(capacity: int, s: seq<Entry>, p: Path, f: File, q: Path)
    requires capacity != 0 && Distinct(Names(s))
    ensures CachedFile(SetSpec(capacity, s, p, f), q) ==
            if q == p then [f]
            else if s != [] && |s| == capacity && p !in Names(s) && q == s[|s| - 1].path then []
            else CachedFile(s, q)
  {
    var names, i := Names(s), IndexOf(Names(s), p);
    if i < |s| {
      assert names[i] == s[i].path;
      MovedKeepsFiles(s, i, Entry(p, f), q);
    } else if s != [] && |s| == capacity {
      PushedInFront(s[..|s| - 1], Entry(p, f), q);
      NamesOfPushed(s, Entry(p, f));
      PrefixFiles(s, q);
    } else {
      PushedInFront(s, Entry(p, f), q);
    }
  }

  lemma PushedInFront(s: seq<Entry>, e: Entry, q: Path)
    ensures CachedFile([e] + s, q) == if q == e.path then [e.file] else CachedFile(s, q)
  {
    NamesOfPushed(s, e);
    assert ([e.path] + Names(s))[1..] == Names(s);
  }

  lemma PrefixFiles(s: seq<Entry>, q: Path)
    requires s != [] && Distinct(Names(s))
    ensures CachedFile(s[..|s| - 1], q) == if q == s[|s| - 1].path then [] else CachedFile(s, q)
  {
    var names := Names(s);
    NamesOfPushed(s, s[0]);
    IndexOfInPrefix(names, |s| - 1, q);
    assert names[|s| - 1] == s[|s| - 1].path;
    if q == s[|s| - 1].path { DistinctPlace(names, q, |s| - 1); }
  }
}
