/**
 The file cache as it runs: a doubly linked list of nodes, most recently used first, and a map from paths
 to nodes of that list. Each node carries its path (see CacheAsWritten for the constructor that forgets it).
 */
module FileCache {
  import opened LruSpec

  class Node {
    const name: Path
    var file: File
    var prev: Node?
    var next: Node?

    constructor (name: Path, file: File)
      ensures this.name == name && this.file == file && prev == null && next == null
    {
      this.name := name;
      this.file := file;
      prev := null;
      next := null;
    }
  }

  /** The node at place k, or null beyond the ends. */
  function At(nodes: seq<Node>, k: int): Node? {
    if 0 <= k < |nodes| then nodes[k] else null
  }

  ghost predicate LinkedAt(nodes: seq<Node>, i: nat)
    requires i < |nodes|
    reads nodes
  {
    nodes[i].prev == At(nodes, i - 1) && nodes[i].next == At(nodes, i + 1)
  }

  ghost function Entries(nodes: seq<Node>): seq<Entry>
    reads nodes
  {
    seq(|nodes|, i requires 0 <= i < |nodes| reads nodes => Entry(nodes[i].name, nodes[i].file))
  }

  twostate lemma SameFiles(nodes: seq<Node>)
    requires forall m | m in nodes :: m.file == old(m.file)
    ensures Entries(nodes) == old(Entries(nodes))
  {
  }

  lemma EntriesWithout(nodes: seq<Node>, i: nat)
    requires i < |nodes|
    ensures Entries(Without(nodes, i)) == Without(Entries(nodes), i)
  {
  }

  lemma SplitMembers(ns: seq<Node>, i: nat)
    requires i < |ns|
    ensures forall m :: m in [ns[i]] + Without(ns, i) <==> m in ns
    ensures forall m :: m in Without(ns, i) ==> m in ns
  {
    forall m | m in ns ensures m in [ns[i]] + Without(ns, i) {
      var j :| 0 <= j < |ns| && ns[j] == m;
      assert ([ns[i]] + Without(ns, i))[if j == i then 0 else if j < i then j + 1 else j] == m;
    }
    forall m | m in Without(ns, i) ensures m in ns {
      var j :| 0 <= j < |Without(ns, i)| && Without(ns, i)[j] == m;
      assert ns[if j < i then j else j + 1] == m;
    }
  }

  class FileCaches {
    const capacity: int
    var cachemap: map<Path, Node>
    var head: Node?
    var tail: Node?
    var size: nat
    ghost var nodes: seq<Node>  // the list, front to back

    /** The links are those of the sequence `nodes`. */
    ghost predicate Linked()
      reads this`head, this`tail, this`size, this`nodes, nodes
    {
      && size == |nodes|
      && head == At(nodes, 0) && tail == At(nodes, |nodes| - 1)
      && (forall i, j | 0 <= i < j < |nodes| :: nodes[i] != nodes[j])
      && (forall i | 0 <= i < |nodes| :: LinkedAt(nodes, i))
    }

    /** Every key leads to the live node that carries it, and every node is reached by its name. */
    ghost predicate Mapped()
      reads this`cachemap, this`nodes
    {
      && (forall p | p in cachemap :: cachemap[p] in nodes && cachemap[p].name == p)
      && (forall n | n in nodes :: n.name in cachemap && cachemap[n.name] == n)
    }

    ghost predicate Valid()
      reads this, nodes
    {
      && capacity != 0
      && Linked() && Mapped()
      && (capacity > 0 ==> size <= capacity)
    }

    ghost function Contents(): seq<Entry>
      reads this`nodes, nodes
    {
      Entries(nodes)
    }

    constructor (capacity: int)
      requires capacity != 0
      ensures Valid() && Contents() == [] && this.capacity == capacity && nodes == []
    {
      this.capacity := capacity;
      cachemap := map[];
      head, tail, size := null, null, 0;
      nodes := [];
    }

    // ---------------------------------------------------------------- the list operations

    /** Takes the node at place i out of the list. */
    method Unlink(n: Node, ghost i: nat)
      requires Linked() && i < |nodes| && nodes[i] == n
      modifies this`head, this`tail, this`size, this`nodes, nodes
      ensures Linked() && nodes == Without(old(nodes), i)
      ensures n.file == old(n.file) && Contents() == Without(old(Contents()), i)
    {
      ghost var before := nodes;
      assert LinkedAt(before, i);
      if n.prev == null {
        head := n.next;
      } else {
        assert LinkedAt(before, i - 1);
        n.prev.next := n.next;
      }
      if n.next == null {
        tail := n.prev;
      } else {
        assert old(LinkedAt(before, i + 1));
        n.next.prev := n.prev;
      }
      size := size - 1;
      nodes := Without(before, i);
      forall k | 0 <= k < |nodes| ensures LinkedAt(nodes, k) {
        var j := if k < i then k else k + 1;
        assert nodes[k] == before[j] && old(LinkedAt(before, j));
      }
      SameFiles(before);
      EntriesWithout(before, i);
    }

    /** Puts a node that is not in the list before all others. */
    method LinkFront(n: Node)
      requires Linked() && n !in nodes
      modifies this`head, this`tail, this`size, this`nodes, nodes, n
      ensures Linked() && nodes == [n] + old(nodes)
      ensures n.file == old(n.file) && Contents() == [Entry(n.name, n.file)] + old(Contents())
    {
      ghost var before := nodes;
      n.prev := null;
      n.next := head;
      if head == null {
        tail := n;
      } else {
        head.prev := n;
      }
      head := n;
      size := size + 1;
      nodes := [n] + before;
      forall k | 0 <= k < |nodes| ensures LinkedAt(nodes, k) {
        if k > 0 { assert nodes[k] == before[k - 1] && old(LinkedAt(before, k - 1)); }
      }
      SameFiles(before);
      assert Entries([n] + before) == [Entry(n.name, n.file)] + Entries(before);
    }

    /** list::splice of one of its own nodes to the front. */
    method Splice(n: Node, ghost i: nat)
      requires Linked() && i < |nodes| && nodes[i] == n
      modifies this`head, this`tail, this`size, this`nodes, nodes
      ensures Linked() && nodes == [n] + Without(old(nodes), i) && size == old(size)
      ensures forall m :: m in nodes <==> m in old(nodes)
      ensures Contents() == [old(Contents())[i]] + Without(old(Contents()), i)
    {
      ghost var before := nodes;
      SplitMembers(before, i);
      Unlink(n, i);
      assert n !in nodes;
      LinkFront(n);
    }

    // ---------------------------------------------------------------- the cache operations

    /** The map finds the place of a path in the list. */
    lemma PlaceOf(p: Path) returns (i: nat)
      requires Linked() && Mapped()
      ensures i == IndexOf(Names(Contents()), p) <= |nodes|
      ensures p in cachemap ==> i < |nodes| && nodes[i] == cachemap[p]
      ensures p !in cachemap ==> i == |nodes|
    {
      var names := Names(Contents());
      if p in cachemap {
        i :| 0 <= i < |nodes| && nodes[i] == cachemap[p];
        forall k | 0 <= k < i ensures names[k] != p { assert nodes[k] != nodes[i]; }
        assert names[i] == p;
        IndexOfFirst(names, p, i);
      } else {
        forall k | 0 <= k < |names| ensures names[k] != p { assert nodes[k].name in cachemap; }
        i := |nodes|;
      }
    }

    /** Splices a cached path's node to the front and points the map at the list's begin() again. */
    method MoveUp(p: Path, ghost i: nat)
      requires Linked() && Mapped() && p in cachemap && i < |nodes| && nodes[i] == cachemap[p]
      modifies this`cachemap, this`head, this`tail, this`size, this`nodes, nodes
      ensures Linked() && Mapped() && size == old(size) && cachemap == old(cachemap)
      ensures nodes == [old(nodes)[i]] + Without(old(nodes), i)
      ensures Contents() == [old(Contents())[i]] + Without(old(Contents()), i)
    {
      ghost var keys := cachemap;
      var n := cachemap[p];
      Splice(n, i);
      assert cachemap == keys && nodes[0] == n;
      PointAtBegin(p);
    }

    /** cachemap_[p] = cachelist_.begin(), which is where it points already. */
    method PointAtBegin(p: Path)
      requires p in cachemap && head == cachemap[p]
      modifies this`cachemap
      ensures cachemap == old(cachemap)
    {
      cachemap := cachemap[p := head];
    }

    /** filecaches::get: the node, moved to the front, or null (the list's end()). */
    method Get(p: Path) returns (n: Node?)
      requires Valid()
      modifies this`cachemap, this`head, this`tail, this`size, this`nodes, nodes
      ensures Valid() && Contents() == GetSpec(old(Contents()), p)
      ensures n != null <==> Hit(old(Contents()), p)
      ensures n != null ==> nodes != [] && n == nodes[0] && n.name == p
      ensures n == null ==> nodes == old(nodes)
      ensures forall k | 0 <= k < |nodes| :: nodes[k] in old(nodes)
    {
      ghost var i := PlaceOf(p);
      if p !in cachemap {
        return null;
      }
      n := cachemap[p];
      assert GetSpec(Contents(), p) == [Contents()[i]] + Without(Contents(), i);
      MoveUp(p, i);
    }

    /** The victim of an eviction: its key and its node go. */
    method EvictBack()
      requires Linked() && Mapped() && nodes != []
      modifies this`cachemap, this`head, this`tail, this`size, this`nodes, nodes
      ensures Linked() && Mapped() && size == old(size) - 1
      ensures nodes == old(nodes)[..|old(nodes)| - 1]
      ensures Contents() == old(Contents())[..|old(Contents())| - 1]
      ensures cachemap == old(cachemap) - {old(nodes)[|old(nodes)| - 1].name}
    {
      ghost var before, keys, entries := nodes, cachemap, Contents();
      var last := tail;
      assert before[|before| - 1] == last;
      Unlink(last, |before| - 1);
      assert nodes == before[..|before| - 1] && Contents() == entries[..|entries| - 1];
      cachemap := cachemap - {last.name};
      forall q | q in cachemap ensures cachemap[q] in nodes && cachemap[q].name == q {
        assert q in keys && keys[q] in before && keys[q] != last;
      }
      forall m | m in nodes ensures m.name in cachemap && cachemap[m.name] == m {
        assert m in before && m != last && keys[last.name] == last;
      }
    }

    method PushFront(p: Path, f: File)
      requires Linked() && Mapped() && p !in cachemap
      modifies this`cachemap, this`head, this`tail, this`size, this`nodes, nodes
      ensures Linked() && Mapped() && size == old(size) + 1
      ensures fresh(nodes[0]) && nodes[1..] == old(nodes)
      ensures Contents() == [Entry(p, f)] + old(Contents())
    {
      var n := new Node(p, f);
      Enter(n);
      assert nodes[0] == n;
    }

    /** A new node goes to the front of the list, and the map points its name at begin(). */
    method Enter(n: Node)
      requires Linked() && Mapped() && n !in nodes && n.name !in cachemap
      modifies this`cachemap, this`head, this`tail, this`size, this`nodes, nodes, n
      ensures Linked() && Mapped() && size == old(size) + 1 && nodes == [n] + old(nodes)
      ensures Contents() == [Entry(n.name, old(n.file))] + old(Contents())
    {
      ghost var before, keys := nodes, cachemap;
      LinkFront(n);
      assert nodes[0] == n && nodes[1..] == before;
      cachemap := cachemap[n.name := head];
      forall q | q in cachemap ensures cachemap[q] in nodes && cachemap[q].name == q {
        if q != n.name { assert q in keys && keys[q] in before; }
      }
      forall m | m in nodes ensures m.name in cachemap && cachemap[m.name] == m {
        if m != n { assert m in before && m.name in keys; }
      }
    }

    /** fptr = make_shared<file>(path) in a listed node. */
    method Reload(n: Node, ghost i: nat, f: File)
      requires Linked() && i < |nodes| && nodes[i] == n
      modifies n`file
      ensures Linked() && Contents() == old(Contents())[i := Entry(n.name, f)]
    {
      n.file := f;
      forall k | 0 <= k < |nodes| ensures LinkedAt(nodes, k) { assert old(LinkedAt(nodes, k)); }
    }

    /** The branch of set for a path that is not cached. */
    method LoadNew(p: Path, f: File)
      requires Valid() && p !in cachemap
      modifies this`cachemap, this`head, this`tail, this`size, this`nodes, nodes
      ensures Valid() && Contents() == SetSpec(capacity, old(Contents()), p, f)
      ensures forall k | 0 <= k < |nodes| :: nodes[k] in old(nodes) || fresh(nodes[k])
    {
      ghost var i := PlaceOf(p);
      if size == capacity {
        EvictBack();
      }
      ghost var kept := nodes;
      PushFront(p, f);
      assert forall k | 1 <= k < |nodes| :: nodes[k] == kept[k - 1];
    }

    /** The branch of set for a path that is cached. */
    method Refresh(p: Path, f: File)
      requires Valid() && p in cachemap
      modifies this`cachemap, this`head, this`tail, this`size, this`nodes, nodes
      ensures Valid() && Contents() == SetSpec(capacity, old(Contents()), p, f)
      ensures forall k | 0 <= k < |nodes| :: nodes[k] in old(nodes)
    {
      ghost var i := PlaceOf(p);
      ghost var s := Contents();
      Reload(cachemap[p], i, f);
      ghost var t := s[i := Entry(p, f)];
      assert Contents() == t;
      MoveUp(p, i);
      assert Contents() == [t[i]] + Without(t, i);
      SetCached(capacity, s, p, f);
    }

    /** filecaches::set: loads the file, evicting the last entry if the list is full. */
    method Set(p: Path, f: File) returns (e: Entry)
      requires Valid()
      modifies this`cachemap, this`head, this`tail, this`size, this`nodes, nodes
      ensures Valid() && Contents() == SetSpec(capacity, old(Contents()), p, f)
      ensures e == Entry(p, f)
      ensures forall k | 0 <= k < |nodes| :: nodes[k] in old(nodes) || fresh(nodes[k])
    {
      if p !in cachemap {
        LoadNew(p, f);
      } else {
        Refresh(p, f);
      }
      assert Contents()[0].file == f && Contents()[0].path == p;
      return Entry(head.name, head.file);
    }

    /** The static-file branch of host::serve: look the file up, take the cached one or load it. */
    method Serve(a: Access) returns (file: File)
      requires Valid()
      modifies this`cachemap, this`head, this`tail, this`size, this`nodes, nodes
      ensures Valid() && Contents() == ServeSpec(capacity, old(Contents()), a)
      ensures file == ServedFile(old(Contents()), a)
      ensures forall k | 0 <= k < |nodes| :: nodes[k] in old(nodes) || fresh(nodes[k])
    {
      var n := Get(a.path);
      if n != null {
        GetTwice(old(Contents()), a.path);
        var again := Get(a.path);
        file := again.file;
        assert Contents()[0].file == file;
      } else {
        var e := Set(a.path, a.file);
        file := e.file;
      }
    }
  }

  /** Serving a whole history from an empty cache. */
  method ServeAll(capacity: int, h: seq<Access>) returns (served: seq<File>, c: FileCaches)
    requires capacity != 0
    ensures c.Valid() && c.capacity == capacity && c.Contents() == Run(capacity, h)
    ensures served == ServedAll(capacity, h)
  {
    c := new FileCaches(capacity);
    served := [];
    var i := 0;
    assert h[..0] == [];
    while i < |h|
      invariant 0 <= i <= |h|
      invariant c.Valid() && c.capacity == capacity && fresh(c) && forall k | 0 <= k < |c.nodes| :: fresh(c.nodes[k])
      invariant c.Contents() == Run(capacity, h[..i])
      invariant served == ServedAll(capacity, h[..i])
    {
      var f := c.Serve(h[i]);
      assert h[..i + 1][..i] == h[..i];
      served := served + [f];
      i := i + 1;
    }
    assert h[..i] == h;
  }
}
