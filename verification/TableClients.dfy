/** What clients do with a table: run any sequence of operations, and delete while iterating. */
module TableClients {
  import opened OrderedTable
  import opened HashTables

  /** One call on a table, chosen by `op`. */
  method Perform<Key, Element>(t: HashTable<Key, Element>, op: Op<Key, Element>) returns (status: Status)
    requires t.Valid() && Allowed(t.View(), op)
    modifies t, t.table, t.live
    ensures t.Valid() && (t.View(), status) == Step(t.h, old(t.View()), op)
    ensures old(t.released) <= t.released && old(t.Nodes()) <= t.Nodes()
    ensures forall n :: n in t.Nodes() ==> n in old(t.Nodes()) || fresh(n)
    ensures |t.Nodes()| == old(|t.Nodes()|) + if op.Add? && status == Ok then 1 else 0
  {
    status := Ok;
    match op
    case Add(k, e, allocates) => status := t.AddElement(k, e, allocates);
    case Delete(k) => status := t.DeleteElement(k);
    case DeleteCurrent => status := t.DeleteCurrentElement();
    case Goto(k) => status := t.GotoElement(k);
    case First => t.GotoFirstElement();
    case Last => t.GotoLastElement();
    case Next => t.GotoNextElement();
    case Previous => t.GotoPreviousElement();
    case Clear => t.Clear();
  }

  /** One turn of a replay. */
  method Advance<Key, Element>(t: HashTable<Key, Element>, ghost start: State<Key, Element>,
                               ops: seq<Op<Key, Element>>, statuses: seq<Status>) returns (status: Status)
    requires t.Valid() && |statuses| < |ops| && Replayed(t.h, start, ops, t.View(), statuses)
    modifies t, t.table, t.live
    ensures t.Valid() && Replayed(t.h, start, ops, t.View(), statuses + [status])
    ensures old(t.released) <= t.released && old(t.Nodes()) <= t.Nodes()
    ensures forall n :: n in t.Nodes() ==> n in old(t.Nodes()) || fresh(n)
    ensures |t.Nodes()| - Created(ops, statuses + [status]) == old(|t.Nodes()|) - Created(ops, statuses)
  {
    ReplayStep(t.h, start, ops, t.View(), statuses);
    status := Perform(t, ops[|statuses|]);
    assert (statuses + [status])[..|statuses|] == statuses;
  }

  /** Any legal sequence of calls keeps both link structures intact and returns what the ordered table
      returns. The nodes there ever were are those from before the run and one fresh node for each
      successful addition; each is either still listed or was released, once. */
  method Replay<Key, Element>(t: HashTable<Key, Element>, ops: seq<Op<Key, Element>>) returns (statuses: seq<Status>)
    requires t.Valid() && LegalRun(t.h, t.View(), ops)
    modifies t, t.table, t.live
    ensures t.Valid() && (t.View(), statuses) == Run(t.h, old(t.View()), ops) && |statuses| == |ops|
    ensures old(t.released) <= t.released && old(t.Nodes()) <= t.Nodes()
    ensures forall n :: n in t.Nodes() ==> n in old(t.Nodes()) || fresh(n)
    ensures |t.Nodes()| == old(|t.Nodes()|) + Created(ops, statuses)
    ensures |t.released| - old(|t.released|) == old(|t.View().entries|) + Created(ops, statuses) - |t.View().entries|
  {
    statuses := [];
    ghost var start := t.View();
    t.NodeCount();
    ReplayBegins(t.h, start, ops);
    while |statuses| < |ops|
      invariant t.Valid() && Replayed(t.h, start, ops, t.View(), statuses)
      invariant old(t.released) <= t.released && old(t.Nodes()) <= t.Nodes()
      invariant forall n :: n in t.Nodes() ==> n in old(t.Nodes()) || fresh(n)
      invariant |t.Nodes()| == old(|t.Nodes()|) + Created(ops, statuses)
    {
      var status := Advance(t, start, ops, statuses);
      statuses := statuses + [status];
    }
    t.NodeCount();
    ReplayEnds(t.h, start, ops, t.View(), statuses);
  }

  /** With lawful keys the linked structure is an insertion-ordered map over every legal run. */
  method ReplayReference<Key(!new), Element>(t: HashTable<Key, Element>, ops: seq<Op<Key, Element>>)
    returns (statuses: seq<Status>)
    requires t.Valid() && Lawful(t.h) && LegalRun(t.h, t.View(), ops)
    modifies t, t.table, t.live
    ensures t.Valid() && LegalReferenceRun(t.h, old(t.View()), ops)
    ensures (t.View(), statuses) == ReferenceRun(t.h, old(t.View()), ops)
  {
    t.ViewIsConsistent();
    RunRefinesReference(t.h, t.View(), ops);
    statuses := Replay(t, ops);
  }

  /** Key and element under the cursor. */
  method CurrentEntry<Key, Element>(t: HashTable<Key, Element>) returns (entry: Entry<Key, Element>)
    requires t.Valid() && t.View().cursor.At?
    ensures entry == t.View().entries[t.View().cursor.pos]
  {
    var k := t.GetCurrentKey();
    var e := t.GetCurrentElement();
    entry := Entry(k, e);
  }

  /** One turn of the sweep: reads the current entry, then moves past it or deletes it. */
  method Visit<Key, Element>(t: HashTable<Key, Element>, keep: Entry<Key, Element> -> bool,
                             ghost all: seq<Entry<Key, Element>>, ghost visited: seq<Entry<Key, Element>>)
    returns (entry: Entry<Key, Element>)
    requires t.Valid() && Swept(t.View(), all, visited, keep) && t.HasCurrentElement()
    modifies t, t.table, t.live
    ensures t.Valid() && Swept(t.View(), all, visited + [entry], keep) && |visited| < |all|
    ensures t.live <= old(t.live)
    ensures old(t.released) <= t.released && t.Nodes() == old(t.Nodes())
  {
    SweepStep(t.View(), all, visited, keep);
    entry := CurrentEntry(t);
    if keep(entry) {
      t.GotoNextElement();
    } else {
      var _ := t.DeleteCurrentElement();
    }
  }

  /** Deleting while iterating: every element is visited once, in insertion order, and exactly those
      to be kept stay, in their old order. */
  method Sweep<Key, Element>(t: HashTable<Key, Element>, keep: Entry<Key, Element> -> bool)
    returns (visited: seq<Entry<Key, Element>>)
    requires t.Valid()
    modifies t, t.table, t.live
    ensures t.Valid() && visited == old(t.View()).entries
    ensures t.View() == State(Filter(old(t.View()).entries, keep), Null)
    ensures old(t.released) <= t.released && t.Nodes() == old(t.Nodes())
  {
    ghost var all := t.View().entries;
    visited := [];
    SweepBegins(t.View(), keep);
    t.GotoFirstElement();
    while t.HasCurrentElement()
      invariant t.Valid() && Swept(t.View(), all, visited, keep)
      invariant t.live <= old(t.live)
      invariant old(t.released) <= t.released && t.Nodes() == old(t.Nodes())
      decreases |all| - |visited|
    {
      var entry := Visit(t, keep, all, visited);
      visited := visited + [entry];
    }
    SweepEnds(t.View(), all, visited, keep);
  }

  /** Walking backwards visits every entry once, newest first, and changes nothing but the cursor. */
  method WalkBackwards<Key, Element>(t: HashTable<Key, Element>) returns (visited: seq<Entry<Key, Element>>)
    requires t.Valid()
    modifies t`curhashelem
    ensures t.Valid() && t.View() == State(old(t.View()).entries, Null)
    ensures var all := old(t.View()).entries;
            |visited| == |all| && forall i :: 0 <= i < |all| ==> visited[i] == all[|all| - 1 - i]
  {
    ghost var all := t.View().entries;
    visited := [];
    t.GotoLastElement();
    while t.HasCurrentElement()
      invariant t.Valid() && t.View().entries == all && |visited| <= |all|
      invariant t.View().cursor == if |visited| < |all| then At(|all| - 1 - |visited|) else Null
      invariant forall i :: 0 <= i < |visited| ==> visited[i] == all[|all| - 1 - i]
      decreases |all| - |visited|
    {
      var entry := CurrentEntry(t);
      visited := visited + [entry];
      t.GotoPreviousElement();
    }
  }
}
