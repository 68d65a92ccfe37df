/** The nodes of the intrusive hash table and the two structures that link them. */
module HashChains {
  import opened OrderedTable

  class HashElement<Key, Element> {
    const hashindex: nat
    const key: Key
    const element: Element
    var hashprev: HashElement?<Key, Element>
    var hashnext: HashElement?<Key, Element>
    var listprev: HashElement?<Key, Element>
    var listnext: HashElement?<Key, Element>

    constructor (k: Key, e: Element, index: nat)
      ensures key == k && element == e && hashindex == index
      ensures hashprev == null && hashnext == null && listprev == null && listnext == null
    {
      key, element, hashindex := k, e, index;
      hashprev, hashnext, listprev, listnext := null, null, null, null;
    }
  }

  // ---------------------------------------------------------------- sequences of nodes

  ghost predicate Apart<T>(s: seq<T>, i: nat, j: nat)
    requires i < |s| && j < |s|
  {
    s[i] != s[j]
  }

  /** Stated over `Apart` so that the solver compares two positions only where a proof asks for it. */
  ghost predicate NoDuplicates<T>(s: seq<T>) {
    forall i, j {:trigger Apart(s, i, j)} :: 0 <= i < j < |s| ==> Apart(s, i, j)
  }

  lemma AllApart<T>(s: seq<T>)
    requires NoDuplicates(s)
    ensures forall i, j :: 0 <= i < j < |s| ==> s[i] != s[j]
  {
    forall i, j | 0 <= i < j < |s| ensures s[i] != s[j] {
      assert Apart(s, i, j);
    }
  }

  ghost function EntriesOf<Key, Element>(s: seq<HashElement<Key, Element>>): (r: seq<Entry<Key, Element>>)
    ensures |r| == |s|
    ensures forall i :: 0 <= i < |s| ==> r[i] == Entry(s[i].key, s[i].element)
  {
    seq(|s|, i requires 0 <= i < |s| => Entry(s[i].key, s[i].element))
  }

  /** The nodes of bucket `b`, newest first: the order in which the chain links them. */
  ghost function Chain<Key, Element>(s: seq<HashElement<Key, Element>>, b: nat): seq<HashElement<Key, Element>> {
    if s == [] then []
    else if s[|s| - 1].hashindex == b then [s[|s| - 1]] + Chain(s[..|s| - 1], b)
    else Chain(s[..|s| - 1], b)
  }

  /** Every list node is in the chain of its own bucket and in no other chain. */
  lemma {:induction false} ChainMembers<Key, Element>(s: seq<HashElement<Key, Element>>, b: nat)
    ensures forall i :: 0 <= i < |Chain(s, b)| ==> Chain(s, b)[i] in s && Chain(s, b)[i].hashindex == b
    ensures forall i :: 0 <= i < |s| && s[i].hashindex == b ==> s[i] in Chain(s, b)
  {
    if s != [] {
      ChainMembers(s[..|s| - 1], b);
    }
  }

  lemma {:induction false} ChainHasNoDuplicates<Key, Element>(s: seq<HashElement<Key, Element>>, b: nat)
    requires NoDuplicates(s)
    ensures NoDuplicates(Chain(s, b))
  {
    AllApart(s);
    if s != [] {
      var front := s[..|s| - 1];
      assert forall i, j {:trigger Apart(front, i, j)} :: 0 <= i < j < |front| ==> Apart(front, i, j);
      ChainHasNoDuplicates(front, b);
      AllApart(Chain(front, b));
      ChainMembers(front, b);
    }
  }

  lemma ChainOfAppended<Key, Element>(s: seq<HashElement<Key, Element>>, n: HashElement<Key, Element>, b: nat)
    ensures Chain(s + [n], b) == if n.hashindex == b then [n] + Chain(s, b) else Chain(s, b)
  {
    assert (s + [n])[..|s|] == s;
  }

  lemma RemoveBeforeLast<T>(s: seq<T>, last: T, p: nat)
    requires p < |s|
    ensures Remove(s + [last], p) == Remove(s, p) + [last]
  {
  }

  lemma RemoveAfterFirst<T>(first: T, s: seq<T>, p: nat)
    requires p < |s|
    ensures Remove([first] + s, p + 1) == [first] + Remove(s, p)
  {
    assert ([first] + s)[..p + 1] == [first] + s[..p];
    assert ([first] + s)[p + 2..] == s[p + 1..];
  }

  /** Taking a node out of the list takes it out of its own chain and changes no other chain. */
  lemma {:induction false} ChainOfRemoved<Key, Element>(s: seq<HashElement<Key, Element>>, p: nat, b: nat) returns (q: nat)
    requires p < |s|
    ensures s[p].hashindex != b ==> Chain(Remove(s, p), b) == Chain(s, b)
    ensures s[p].hashindex == b ==> q < |Chain(s, b)| && Chain(s, b)[q] == s[p] &&
                                    Chain(Remove(s, p), b) == Remove(Chain(s, b), q)
  {
    var front, last := s[..|s| - 1], s[|s| - 1];
    if p == |s| - 1 {
      assert Remove(s, p) == front;
      q := 0;
    } else {
      q := ChainOfRemoved(front, p, b);
      assert s == front + [last];
      RemoveBeforeLast(front, last, p);
      ChainOfAppended(Remove(front, p), last, b);
      if last.hashindex == b && s[p].hashindex == b {
        RemoveAfterFirst(last, Chain(front, b), q);
        q := q + 1;
      }
    }
  }

  /** Walking a chain from its head finds the same node as searching the list from its end. */
  lemma {:induction false} ChainSearchIsFind<Key, Element>(
    h: Hashing<Key>, s: seq<HashElement<Key, Element>>, k: Key, c: seq<HashElement<Key, Element>>, j: nat)
    requires forall i :: 0 <= i < |s| ==> s[i].hashindex == h.index(s[i].key)
    requires c == Chain(s, h.index(k)) && j <= |c|
    requires forall t :: 0 <= t < j ==> !h.same(c[t].key, k)
    ensures j == |c| ==> Find(h, EntriesOf(s), k) == -1
    ensures j < |c| && h.same(c[j].key, k) ==>
              Find(h, EntriesOf(s), k) >= 0 && s[Find(h, EntriesOf(s), k)] == c[j]
  {
    if s != [] {
      var front, last, entries := s[..|s| - 1], s[|s| - 1], EntriesOf(s);
      assert entries[..|s| - 1] == EntriesOf(front);
      assert entries[|s| - 1].key == last.key;
      if last.hashindex != h.index(k) {
        assert !Matches(h, last.key, k);
        ChainSearchIsFind(h, front, k, c, j);
      } else {
        assert c == [last] + c[1..];
        if j > 0 {
          assert !h.same(c[0].key, k);
          assert c[1..] == Chain(front, h.index(k));
          ChainSearchIsFind(h, front, k, c[1..], j - 1);
          assert Find(h, entries, k) == Find(h, EntriesOf(front), k);
        } else {
          assert c[0] == last;
          assert h.index(last.key) == h.index(k);
        }
      }
    }
  }

  ghost function NodeSet<Key, Element>(s: seq<HashElement<Key, Element>>): set<HashElement<Key, Element>> {
    set n | n in s
  }

  lemma RemovedAt<T>(s: seq<T>, p: nat)
    requires p < |s|
    ensures |Remove(s, p)| == |s| - 1
    ensures forall i :: 0 <= i < p ==> Remove(s, p)[i] == s[i]
    ensures forall i :: p <= i < |s| - 1 ==> Remove(s, p)[i] == s[i + 1]
  {
  }

  lemma NodeSetTail<Key, Element>(s: seq<HashElement<Key, Element>>, i: nat)
    requires NoDuplicates(s) && i < |s|
    ensures NodeSet(s[i..]) - {s[i]} == NodeSet(s[i + 1..]) && s[i] in NodeSet(s[i..])
  {
    AllApart(s);
    assert s[i..] == [s[i]] + s[i + 1..];
  }

  lemma {:induction false} NodeSetSize<Key, Element>(s: seq<HashElement<Key, Element>>)
    requires NoDuplicates(s)
    ensures |NodeSet(s)| == |s|
  {
    AllApart(s);
    if s != [] {
      NodeSetSize(s[1..]);
      assert NodeSet(s) == {s[0]} + NodeSet(s[1..]);
    }
  }

  /** The facts about a list of nodes that do not depend on any link. */
  ghost predicate NodesOk<Key, Element>(h: Hashing<Key>, s: seq<HashElement<Key, Element>>) {
    && NoDuplicates(s)
    && (forall i :: 0 <= i < |s| ==> s[i].hashindex == h.index(s[i].key))
    && NoClash(h, EntriesOf(s))
  }

  lemma NodeSetOfRemoved<Key, Element>(s: seq<HashElement<Key, Element>>, p: nat)
    requires NoDuplicates(s) && p < |s|
    ensures NodeSet(Remove(s, p)) == NodeSet(s) - {s[p]}
  {
    AllApart(s);
    assert s == s[..p] + [s[p]] + s[p + 1..];
    assert s[p] !in s[..p] && s[p] !in s[p + 1..];
  }

  lemma RemoveKeepsNoDuplicates<Key, Element>(s: seq<HashElement<Key, Element>>, p: nat)
    requires NoDuplicates(s) && p < |s|
    ensures NoDuplicates(Remove(s, p))
  {
    AllApart(s);
    RemovedAt(s, p);
  }

  lemma EntriesOfRemoved<Key, Element>(s: seq<HashElement<Key, Element>>, p: nat)
    requires p < |s|
    ensures EntriesOf(Remove(s, p)) == Remove(EntriesOf(s), p)
  {
    RemovedAt(s, p);
    RemovedAt(EntriesOf(s), p);
  }

  lemma RemovedNodes<Key, Element>(h: Hashing<Key>, s: seq<HashElement<Key, Element>>, p: nat)
    requires NodesOk(h, s) && p < |s|
    ensures NodesOk(h, Remove(s, p))
    ensures EntriesOf(Remove(s, p)) == Remove(EntriesOf(s), p)
    ensures NodeSet(Remove(s, p)) == NodeSet(s) - {s[p]}
  {
    RemoveKeepsNoDuplicates(s, p);
    NodeSetOfRemoved(s, p);
    EntriesOfRemoved(s, p);
    RemoveKeepsNoClash(h, EntriesOf(s), p);
    RemovedAt(s, p);
  }

  lemma AppendedNode<Key, Element>(h: Hashing<Key>, s: seq<HashElement<Key, Element>>, n: HashElement<Key, Element>)
    requires NodesOk(h, s) && n !in s && n.hashindex == h.index(n.key) < h.size
    requires Find(h, EntriesOf(s), n.key) < 0
    ensures NodesOk(h, s + [n])
    ensures EntriesOf(s + [n]) == EntriesOf(s) + [Entry(n.key, n.element)]
    ensures NodeSet(s + [n]) == NodeSet(s) + {n}
  {
    AllApart(s);
    assert EntriesOf(s + [n]) == EntriesOf(s) + [Entry(n.key, n.element)];
  }

  // ---------------------------------------------------------------- the two link structures

  ghost predicate ListLinked<Key, Element>(s: seq<HashElement<Key, Element>>,
                                           first: HashElement?<Key, Element>, last: HashElement?<Key, Element>)
    reads s`listprev, s`listnext
  {
    && first == (if s == [] then null else s[0])
    && last == (if s == [] then null else s[|s| - 1])
    && (forall i {:trigger s[i].listprev} :: 0 <= i < |s| ==> s[i].listprev == if i == 0 then null else s[i - 1])
    && (forall i {:trigger s[i].listnext} :: 0 <= i < |s| ==> s[i].listnext == if i == |s| - 1 then null else s[i + 1])
  }

  ghost predicate ChainLinked<Key, Element>(c: seq<HashElement<Key, Element>>, head: HashElement?<Key, Element>)
    reads c`hashprev, c`hashnext
  {
    && head == (if c == [] then null else c[0])
    && (forall i {:trigger c[i].hashprev} :: 0 <= i < |c| ==> c[i].hashprev == if i == 0 then null else c[i - 1])
    && (forall i {:trigger c[i].hashnext} :: 0 <= i < |c| ==> c[i].hashnext == if i == |c| - 1 then null else c[i + 1])
  }

  ghost predicate BucketsLinked<Key, Element>(s: seq<HashElement<Key, Element>>, table: array<HashElement?<Key, Element>>)
    reads s`hashprev, s`hashnext, table
  {
    forall b {:trigger table[b]} :: 0 <= b < table.Length ==>
      (ChainMembers(s, b); ChainLinked(Chain(s, b), table[b]))
  }
}
