/** The intrusive hash table. Every node is linked twice: into the chain of its bucket, newest
    first, and into one list over all nodes, oldest first. A cursor walks the list.

    One class stands for both tables of the library. The keyed table is `HashTable` itself; the
    set version runs the same statements with the element in the place of the key. A deletion
    relinks the chain, then the list, then releases the node; here these are three methods. */
module HashTables {
  import opened OrderedTable
  import opened HashChains

  class HashTable<Key, Element> {
    const h: Hashing<Key>
    const table: array<HashElement?<Key, Element>>
    var firsthashelem: HashElement?<Key, Element>
    var lasthashelem: HashElement?<Key, Element>
    var curhashelem: HashElement?<Key, Element>

    ghost var list: seq<HashElement<Key, Element>>      // the nodes in insertion order
    ghost var live: set<HashElement<Key, Element>>      // nodes created and not yet released
    ghost var released: set<HashElement<Key, Element>>  // nodes handed back to the memory manager

    /** The invariant of the table. It says nothing about the cursor, which may dangle. */
    ghost predicate Valid()
      reads this`firsthashelem, this`lasthashelem, this`list, this`live, this`released, table, list
    {
      && table.Length == h.size
      && NodesOk(h, list)
      && live == NodeSet(list)
      && live !! released
      && ListLinked(list, firsthashelem, lasthashelem)
      && BucketsLinked(list, table)
    }

    /** The cursor is null or points to a live node: it may be dereferenced. */
    ghost predicate CursorOk()
      reads this
    {
      curhashelem == null || curhashelem in list
    }

    ghost function CursorView(): (c: Cursor)
      reads this
      ensures c.At? ==> c.pos < |list| && list[c.pos] == curhashelem
      ensures c.Dangling? <==> !CursorOk()
      ensures c.Null? <==> curhashelem == null
    {
      if curhashelem == null then Null
      else if curhashelem in list then
        var p: nat :| p < |list| && list[p] == curhashelem;
        At(p)
      else Dangling
    }

    /** The table as its callers see it. */
    ghost function View(): (st: State<Key, Element>)
      reads this
      ensures |st.entries| == |list|
      ensures CursorInRange(st)
    {
      State(EntriesOf(list), CursorView())
    }

    /** Node positions are unique, so the cursor has the position it was set to. */
    lemma CursorIsAt(p: int)
      requires NoDuplicates(list)
      requires curhashelem == if 0 <= p < |list| then list[p] else null
      ensures CursorView() == CursorAt(p, |list|)
    {
      AllApart(list);
    }

    /** Appending a node that the cursor does not point to leaves the cursor where it was. */
    twostate lemma CursorViewKept(before: seq<HashElement<Key, Element>>, new n: HashElement<Key, Element>)
      requires before == old(list) && list == before + [n] && NoDuplicates(list)
      requires curhashelem == old(curhashelem) && curhashelem != n
      ensures CursorView() == old(CursorView())
    {
      if old(CursorView()).At? {
        CursorIsAt(old(CursorView()).pos);
      }
    }

    /** All nodes this table ever created. */
    ghost function Nodes(): set<HashElement<Key, Element>>
      reads this`live, this`released
    {
      live + released
    }

    /** Live nodes and entries correspond one to one, and every other node was released. */
    lemma NodeCount()
      requires Valid()
      ensures |live| == |View().entries| && |Nodes()| == |View().entries| + |released|
    {
      NodeSetSize(list);
    }

    lemma ViewIsConsistent()
      requires Valid()
      ensures Consistent(h, View())
    {
    }

    /** An empty table. The cursor is not set. */
    constructor (h: Hashing<Key>)
      ensures Valid() && this.h == h
      ensures View().entries == [] && !View().cursor.At?
      ensures live == {} && released == {}
      ensures fresh(table)
    {
      this.h := h;
      table := new HashElement?<Key, Element>[h.size];
      firsthashelem, lasthashelem := null, null;
      list, live, released := [], {}, {};
      new;
      for i := 0 to h.size
        invariant list == [] && live == {} && released == {} && firsthashelem == null && lasthashelem == null
        invariant forall j :: 0 <= j < i ==> table[j] == null
      {
        table[i] := null;
      }
    }

    // -------------------------------------------------------------- reading the cursor

    predicate HasCurrentElement()
      reads this
      ensures HasCurrentElement() <==> !View().cursor.Null?
    {
      curhashelem != null
    }

    method GetCurrentElement() returns (e: Element)
      requires Valid() && View().cursor.At?
      ensures e == View().entries[View().cursor.pos].element
    {
      e := curhashelem.element;
    }

    method GetCurrentKey() returns (k: Key)
      requires Valid() && View().cursor.At?
      ensures k == View().entries[View().cursor.pos].key
    {
      k := curhashelem.key;
    }

    // -------------------------------------------------------------- moving the cursor

    method GotoFirstElement()
      requires Valid()
      modifies this`curhashelem
      ensures Valid() && View() == FirstStep(old(View()))
    {
      curhashelem := firsthashelem;
      CursorIsAt(0);
    }

    method GotoLastElement()
      requires Valid()
      modifies this`curhashelem
      ensures Valid() && View() == LastStep(old(View()))
    {
      curhashelem := lasthashelem;
      CursorIsAt(|list| - 1);
    }

    method GotoNextElement()
      requires Valid() && CursorOk()
      modifies this`curhashelem
      ensures Valid() && View() == NextStep(old(View()))
    {
      ghost var c := CursorView();
      if curhashelem != null {
        curhashelem := curhashelem.listnext;
        CursorIsAt(c.pos + 1);
      }
    }

    method GotoPreviousElement()
      requires Valid() && CursorOk()
      modifies this`curhashelem
      ensures Valid() && View() == PreviousStep(old(View()))
    {
      ghost var c := CursorView();
      if curhashelem != null {
        curhashelem := curhashelem.listprev;
        CursorIsAt(c.pos - 1);
      }
    }

    // -------------------------------------------------------------- searching

    method HasElement(k: Key) returns (found: bool)
      requires Valid()
      ensures found <==> Has(h, View().entries, k)
    {
      var index := h.index(k);
      if index >= h.size {
        return false;
      }
      var tmp := table[index];
      found := false;
      ghost var c, j := Chain(list, index), 0;
      while !found && tmp != null
        invariant 0 <= j <= |c| && tmp == if j < |c| then c[j] else null
        invariant forall t :: 0 <= t < j ==> !h.same(c[t].key, k)
        invariant found ==> j < |c| && h.same(c[j].key, k)
        decreases |c| - j, !found
      {
        if h.same(tmp.key, k) {
          found := true;
        } else {
          tmp := tmp.hashnext;
          j := j + 1;
        }
      }
      ChainSearchIsFind(h, list, k, c, j);
    }

    /** What a finished walk of the chain `c` of bucket `h.index(k)` means for the whole table. */
    lemma WalkEnds(k: Key, c: seq<HashElement<Key, Element>>, j: nat, before: State<Key, Element>)
      requires Valid() && h.index(k) < h.size && before.entries == EntriesOf(list)
      requires c == Chain(list, h.index(k)) && j <= |c|
      requires forall t :: 0 <= t < j ==> !h.same(c[t].key, k)
      requires j < |c| ==> h.same(c[j].key, k)
      requires curhashelem == if j < |c| then c[j] else null
      ensures (View(), if j < |c| then Ok else NotFound) == GotoStep(h, before, k)
    {
      ChainSearchIsFind(h, list, k, c, j);
      CursorIsAt(Find(h, EntriesOf(list), k));
    }

    method GotoElement(k: Key) returns (status: Status)
      requires Valid()
      modifies this`curhashelem
      ensures Valid() && (View(), status) == GotoStep(h, old(View()), k)
    {
      var index := h.index(k);
      if index >= h.size {
        return InvalidHashIndex;
      }
      ghost var c, j := Chain(list, index), 0;
      assert ChainLinked(c, table[index]);
      curhashelem := table[index];
      var found := false;
      while !found && curhashelem != null
        invariant ChainLinked(c, table[index])
        invariant 0 <= j <= |c| && curhashelem == if j < |c| then c[j] else null
        invariant forall t :: 0 <= t < j ==> !h.same(c[t].key, k)
        invariant found ==> j < |c| && h.same(c[j].key, k)
        decreases |c| - j, !found
      {
        if h.same(curhashelem.key, k) {
          found := true;
        } else {
          curhashelem := curhashelem.hashnext;
          j := j + 1;
        }
      }
      WalkEnds(k, c, j, old(View()));
      if !found {
        return NotFound;
      }
      return Ok;
    }

    // -------------------------------------------------------------- releasing nodes

    /** The memory manager takes back a node; it must not have done so before. */
    method Release(ghost n: HashElement<Key, Element>)
      requires n in live
      modifies this`live, this`released
      ensures live == old(live) - {n} && released == old(released) + {n}
    {
      live, released := live - {n}, released + {n};
    }

    /** Takes the `q`-th node of its bucket's chain out of that chain. */
    method UnlinkFromChain(cur: HashElement<Key, Element>, ghost c: seq<HashElement<Key, Element>>, ghost q: nat)
      requires cur.hashindex < table.Length && ChainLinked(c, table[cur.hashindex]) && NoDuplicates(c)
      requires q < |c| && c[q] == cur
      modifies table, c`hashprev, c`hashnext
      ensures ChainLinked(Remove(c, q), table[cur.hashindex])
      ensures forall d :: 0 <= d < table.Length && d != cur.hashindex ==> table[d] == old(table[d])
    {
      AllApart(c);
      var index := cur.hashindex;
      var tmp1 := cur.hashprev;
      var tmp2 := cur.hashnext;
      if tmp1 == null {
        table[index] := tmp2;
        if tmp2 != null {
          tmp2.hashprev := null;
        }
      } else {
        tmp1.hashnext := tmp2;
        if tmp2 != null {
          tmp2.hashprev := tmp1;
        }
      }
    }

    /** Takes the node at list position `p` out of its bucket. */
    method UnlinkFromBucket(cur: HashElement<Key, Element>, ghost p: nat)
      requires NoDuplicates(list) && BucketsLinked(list, table)
      requires p < |list| && list[p] == cur && cur.hashindex < table.Length
      modifies table, list`hashprev, list`hashnext
      ensures BucketsLinked(Remove(list, p), table)
    {
      ghost var b := cur.hashindex;
      ghost var q := ChainOfRemoved(list, p, b);
      ChainHasNoDuplicates(list, b);
      ChainMembers(list, b);
      UnlinkFromChain(cur, Chain(list, b), q);
      forall d | 0 <= d < table.Length && d != b ensures ChainLinked(Chain(Remove(list, p), d), table[d]) {
        ghost var _ := ChainOfRemoved(list, p, d);
        ChainMembers(list, d);
        assert old(ChainLinked(Chain(list, d), table[d]));
      }
    }

    /** Relinking the list leaves the chains as they are. */
    twostate lemma BucketsKept(s: seq<HashElement<Key, Element>>)
      requires old(BucketsLinked(s, table))
      requires forall i :: 0 <= i < table.Length ==> table[i] == old(table[i])
      requires forall n :: n in s ==> n.hashprev == old(n.hashprev) && n.hashnext == old(n.hashnext)
      ensures BucketsLinked(s, table)
    {
      forall b | 0 <= b < table.Length ensures ChainLinked(Chain(s, b), table[b]) {
        ChainMembers(s, b);
        assert old(ChainLinked(Chain(s, b), table[b]));
      }
    }

    /** Takes the node at position `p` out of the list over all nodes. */
    method UnlinkFromList(cur: HashElement<Key, Element>, ghost p: nat)
      requires NoDuplicates(list) && ListLinked(list, firsthashelem, lasthashelem)
      requires p < |list| && list[p] == cur
      modifies this`firsthashelem, this`lasthashelem, list`listprev, list`listnext
      ensures ListLinked(Remove(list, p), firsthashelem, lasthashelem)
      ensures old(BucketsLinked(Remove(list, p), table)) ==> BucketsLinked(Remove(list, p), table)
    {
      AllApart(list);
      var tmp1 := cur.listprev;
      var tmp2 := cur.listnext;
      if tmp1 == null {
        firsthashelem := tmp2;
        if tmp2 != null {
          tmp2.listprev := null;
        } else {
          lasthashelem := null;
        }
      } else {
        tmp1.listnext := tmp2;
        if tmp2 != null {
          tmp2.listprev := tmp1;
        } else {
          lasthashelem := tmp1;
        }
      }
      RemovedAt(list, p);
      ghost var rest := Remove(list, p);
      if old(BucketsLinked(rest, table)) {
        BucketsKept(rest);
      }
    }

    /** Releases the unlinked node at list position `p`; the ghost list forgets it. */
    method ReleaseUnlinked(cur: HashElement<Key, Element>, ghost p: nat)
      requires p < |list| && list[p] == cur && table.Length == h.size && NodesOk(h, list)
      requires live == NodeSet(list) && live !! released
      requires ListLinked(Remove(list, p), firsthashelem, lasthashelem)
      requires BucketsLinked(Remove(list, p), table)
      modifies this`list, this`live, this`released
      ensures list == Remove(old(list), p) && Valid()
      ensures EntriesOf(list) == Remove(old(EntriesOf(list)), p)
      ensures live == old(live) - {cur} && released == old(released) + {cur}
    {
      RemovedNodes(h, list, p);
      Release(cur);
      list := Remove(list, p);
    }

    /** Takes the node at list position `p` out of both link structures and releases it. */
    method DeleteNode(cur: HashElement<Key, Element>, ghost p: nat)
      requires Valid() && p < |list| && list[p] == cur
      modifies this`firsthashelem, this`lasthashelem, this`list, this`live, this`released, table, live
      ensures Valid() && list == Remove(old(list), p)
      ensures EntriesOf(list) == Remove(old(EntriesOf(list)), p)
      ensures live == old(live) - {cur} && released == old(released) + {cur}
    {
      UnlinkFromBucket(cur, p);
      UnlinkFromList(cur, p);
      ReleaseUnlinked(cur, p);
    }

    method DeleteCurrentElement() returns (status: Status)
      requires Valid() && CursorOk()
      modifies this, table, live
      ensures Valid() && (View(), status) == DeleteCurrentStep(old(View()))
      ensures old(released) <= released && Nodes() == old(Nodes())
    {
      if curhashelem != null {
        ghost var p := CursorView().pos;
        var next := curhashelem.listnext;
        assert next == if p + 1 < |list| then list[p + 1] else null;
        DeleteNode(curhashelem, p);
        curhashelem := next;
        CursorIsAt(p);
        status := Ok;
      } else {
        status := NoCurrentElement;
      }
    }

    method DeleteElement(k: Key) returns (status: Status)
      requires Valid()
      modifies this, table, live
      ensures Valid() && (View(), status) == DeleteStep(h, old(View()), k)
      ensures old(released) <= released && Nodes() == old(Nodes())
    {
      status := GotoElement(k);
      if status != Ok {
        return;
      }
      status := DeleteCurrentElement();
    }

    /** Walks the list and releases every node, reading each successor before the node goes. */
    method ReleaseAll()
      requires NodesOk(h, list) && ListLinked(list, firsthashelem, lasthashelem)
      requires live == NodeSet(list) && live !! released
      modifies this`live, this`released
      ensures live == {} && released == Nodes() == old(Nodes())
    {
      var tmp1 := firsthashelem;
      ghost var i := 0;
      while tmp1 != null
        invariant 0 <= i <= |list| && tmp1 == if i < |list| then list[i] else null
        invariant live == NodeSet(list[i..])
        invariant live !! released && Nodes() == old(Nodes())
        decreases |list| - i
      {
        var tmp2 := tmp1.listnext;
        NodeSetTail(list, i);
        Release(tmp1);
        tmp1 := tmp2;
        i := i + 1;
      }
    }

    /** Releases every node. The cursor keeps its value, so it dangles if it pointed to a node. */
    method Clear()
      requires Valid()
      modifies this, table
      ensures Valid() && View() == ClearStep(old(View()))
      ensures live == {} && released == Nodes() == old(Nodes())
      ensures curhashelem == old(curhashelem)
    {
      for i := 0 to h.size
        invariant forall j :: 0 <= j < i ==> table[j] == null
        invariant unchanged(this) && ListLinked(list, firsthashelem, lasthashelem)
      {
        table[i] := null;
      }
      ReleaseAll();
      firsthashelem, lasthashelem := null, null;
      list := [];
    }

    // -------------------------------------------------------------- adding

    /** Puts a new node at the head of a chain. */
    method LinkIntoChain(newelem: HashElement<Key, Element>, ghost c: seq<HashElement<Key, Element>>)
      requires newelem.hashindex < table.Length && ChainLinked(c, table[newelem.hashindex]) && NoDuplicates(c)
      requires newelem !in c && newelem.hashprev == null && newelem.hashnext == null
      modifies table, c`hashprev, newelem`hashnext
      ensures ChainLinked([newelem] + c, table[newelem.hashindex])
      ensures forall d :: 0 <= d < table.Length && d != newelem.hashindex ==> table[d] == old(table[d])
    {
      AllApart(c);
      var index := newelem.hashindex;
      var e := table[index];
      table[index] := newelem;
      newelem.hashnext := e;
      if e != null {
        e.hashprev := newelem;
      }
    }

    /** Puts a new node into its bucket. */
    method LinkIntoBucket(newelem: HashElement<Key, Element>)
      requires NoDuplicates(list) && BucketsLinked(list, table)
      requires newelem !in list && newelem.hashindex < table.Length
      requires newelem.hashprev == null && newelem.hashnext == null
      modifies table, list`hashprev, newelem`hashnext
      ensures BucketsLinked(list + [newelem], table)
    {
      ghost var b := newelem.hashindex;
      ChainHasNoDuplicates(list, b);
      ChainMembers(list, b);
      LinkIntoChain(newelem, Chain(list, b));
      ChainOfAppended(list, newelem, b);
      forall d | 0 <= d < table.Length && d != b ensures ChainLinked(Chain(list + [newelem], d), table[d]) {
        ChainOfAppended(list, newelem, d);
        ChainMembers(list, d);
        assert old(ChainLinked(Chain(list, d), table[d]));
      }
    }

    /** Puts a new node at the end of the list over all nodes. */
    method LinkIntoList(newelem: HashElement<Key, Element>)
      requires NoDuplicates(list) && ListLinked(list, firsthashelem, lasthashelem)
      requires newelem !in list && newelem.listprev == null && newelem.listnext == null
      modifies this`firsthashelem, this`lasthashelem, list`listnext, newelem`listprev
      ensures ListLinked(list + [newelem], firsthashelem, lasthashelem)
      ensures old(BucketsLinked(list + [newelem], table)) ==> BucketsLinked(list + [newelem], table)
    {
      AllApart(list);
      if firsthashelem == null {
        firsthashelem := newelem;
        lasthashelem := newelem;
      } else {
        lasthashelem.listnext := newelem;
        newelem.listprev := lasthashelem;
        lasthashelem := newelem;
      }
      if old(BucketsLinked(list + [newelem], table)) {
        BucketsKept(list + [newelem]);
      }
    }

    /** Once a node is created and linked, the ghost list ends with it. */
    ghost method AppendToList(n: HashElement<Key, Element>)
      requires table.Length == h.size && NodesOk(h, list) && n !in list && n.hashindex == h.index(n.key) < h.size
      requires Find(h, EntriesOf(list), n.key) < 0
      requires live == NodeSet(list) + {n} && live !! released
      requires ListLinked(list + [n], firsthashelem, lasthashelem) && BucketsLinked(list + [n], table)
      modifies this`list
      ensures list == old(list) + [n] && Valid()
      ensures EntriesOf(list) == old(EntriesOf(list)) + [Entry(n.key, n.element)]
    {
      AppendedNode(h, list, n);
      list := list + [n];
    }

    /** Links a new node into its bucket and at the end of the list. */
    method InsertNode(newelem: HashElement<Key, Element>)
      requires Valid() && newelem !in list && newelem !in released
      requires newelem.hashindex == h.index(newelem.key) < h.size && Find(h, EntriesOf(list), newelem.key) < 0
      requires newelem.hashprev == newelem.hashnext == newelem.listprev == newelem.listnext == null
      modifies this`firsthashelem, this`lasthashelem, this`list, this`live, table, list, newelem
      ensures Valid() && list == old(list) + [newelem] && live == old(live) + {newelem}
      ensures EntriesOf(list) == old(EntriesOf(list)) + [Entry(newelem.key, newelem.element)]
    {
      LinkIntoBucket(newelem);
      LinkIntoList(newelem);
      live := live + {newelem};
      AppendToList(newelem);
    }

    /** `allocates` says whether the memory manager hands out a node. The search for the key is the
        loop of `HasElement`. */
    method AddElement(k: Key, elem: Element, allocates: bool) returns (status: Status)
      requires Valid()
      modifies this, table, live
      ensures Valid() && (View(), status) == AddStep(h, old(View()), k, elem, allocates)
      ensures released == old(released) && curhashelem == old(curhashelem)
      ensures old(Nodes()) <= Nodes()
      ensures forall n :: n in Nodes() ==> n in old(Nodes()) || fresh(n)
      ensures |Nodes()| == old(|Nodes()|) + if status == Ok then 1 else 0
    {
      var index := h.index(k);
      var found := HasElement(k);
      if index >= h.size {
        status := InvalidHashIndex;
      } else if found {
        status := AlreadyExists;
      } else if !allocates {
        status := OutOfMemory;
      } else {
        var newelem := new HashElement(k, elem, index);
        InsertNode(newelem);
        CursorViewKept(old(list), newelem);
        assert Nodes() == old(Nodes()) + {newelem};
        status := Ok;
      }
    }
  }
}
