/** The hash tables as their callers see them: a list of entries in insertion order plus a cursor.

    `Step` is the specification that the methods of `HashTables.HashTable` are proved against. It
    still searches the way the code does (one bucket, latest entry first). `ReferenceStep` knows
    nothing about buckets; `RunRefinesReference` shows the two agree on every run when the keys
    are lawful. */
module OrderedTable {

  /** The three template arguments: bucket count, hash function and the key's `operator==`.
      A hash function returns a non-negative index; an index that is too large is an error path. */
  datatype Hashing<!Key> = Hashing(size: nat, index: Key -> nat, same: (Key, Key) -> bool)

  datatype Entry<Key, Element> = Entry(key: Key, element: Element)

  /** `Dangling` is a cursor that was never set, or that points to a node `Clear` has released. */
  datatype Cursor = Dangling | Null | At(pos: nat)

  datatype State<Key, Element> = State(entries: seq<Entry<Key, Element>>, cursor: Cursor)

  predicate CursorInRange<Key, Element>(st: State<Key, Element>) {
    st.cursor.At? ==> st.cursor.pos < |st.entries|
  }

  datatype Status = Ok | OutOfMemory | InvalidHashIndex | AlreadyExists | NotFound | NoCurrentElement

  datatype Op<Key, Element> =
    | Add(key: Key, element: Element, allocates: bool)
    | Delete(key: Key)
    | DeleteCurrent
    | Goto(key: Key)
    | First
    | Last
    | Next
    | Previous
    | Clear

  function Remove<T>(s: seq<T>, p: nat): seq<T>
    requires p < |s|
  {
    s[..p] + s[p + 1..]
  }

  /** A stored key answers a search for `k`: same bucket, and equal by the key's `operator==`. */
  predicate Matches<Key>(h: Hashing<Key>, stored: Key, k: Key) {
    h.index(stored) == h.index(k) && h.same(stored, k)
  }

  /** Position of the latest entry that answers a search for `k`, or -1. */
  function Find<Key, Element>(h: Hashing<Key>, s: seq<Entry<Key, Element>>, k: Key): (p: int)
    ensures -1 <= p < |s|
    ensures p >= 0 ==> Matches(h, s[p].key, k)
    ensures forall q :: p < q < |s| ==> !Matches(h, s[q].key, k)
  {
    if s == [] then -1
    else if Matches(h, s[|s| - 1].key, k) then |s| - 1
    else Find(h, s[..|s| - 1], k)
  }

  predicate Has<Key, Element>(h: Hashing<Key>, s: seq<Entry<Key, Element>>, k: Key) {
    h.index(k) < h.size && Find(h, s, k) >= 0
  }

  /** The cursor after the entry at `p` went away: the successor, which now has position `p`. */
  function CursorAt(p: int, length: nat): Cursor {
    if 0 <= p < length then At(p) else Null
  }

  /** A dangling cursor must not be dereferenced. */
  predicate Allowed<Key, Element>(st: State<Key, Element>, op: Op<Key, Element>) {
    op.DeleteCurrent? || op.Next? || op.Previous? ==> !st.cursor.Dangling?
  }

  function RemoveAt<Key, Element>(st: State<Key, Element>, p: nat): State<Key, Element>
    requires p < |st.entries|
  {
    State(Remove(st.entries, p), CursorAt(p, |st.entries| - 1))
  }

  function AddStep<Key, Element>(h: Hashing<Key>, st: State<Key, Element>, k: Key, e: Element, allocates: bool)
    : (State<Key, Element>, Status)
  {
    if h.index(k) >= h.size then (st, InvalidHashIndex)
    else if Find(h, st.entries, k) >= 0 then (st, AlreadyExists)
    else if !allocates then (st, OutOfMemory)
    else (st.(entries := st.entries + [Entry(k, e)]), Ok)
  }

  function GotoStep<Key, Element>(h: Hashing<Key>, st: State<Key, Element>, k: Key): (State<Key, Element>, Status)
  {
    if h.index(k) >= h.size then (st, InvalidHashIndex)
    else
      var p := Find(h, st.entries, k);
      (st.(cursor := CursorAt(p, |st.entries|)), if p >= 0 then Ok else NotFound)
  }

  function DeleteStep<Key, Element>(h: Hashing<Key>, st: State<Key, Element>, k: Key): (State<Key, Element>, Status)
  {
    var (st1, status) := GotoStep(h, st, k);
    if status != Ok then (st1, status) else (RemoveAt(st1, st1.cursor.pos), Ok)
  }

  function DeleteCurrentStep<Key, Element>(st: State<Key, Element>): (State<Key, Element>, Status)
    requires !st.cursor.Dangling? && CursorInRange(st)
  {
    if st.cursor.Null? then (st, NoCurrentElement) else (RemoveAt(st, st.cursor.pos), Ok)
  }

  function FirstStep<Key, Element>(st: State<Key, Element>): State<Key, Element> {
    st.(cursor := CursorAt(0, |st.entries|))
  }

  function LastStep<Key, Element>(st: State<Key, Element>): State<Key, Element> {
    st.(cursor := CursorAt(|st.entries| - 1, |st.entries|))
  }

  function NextStep<Key, Element>(st: State<Key, Element>): State<Key, Element> {
    if st.cursor.At? then st.(cursor := CursorAt(st.cursor.pos + 1, |st.entries|)) else st
  }

  function PreviousStep<Key, Element>(st: State<Key, Element>): State<Key, Element> {
    if st.cursor.At? then st.(cursor := CursorAt(st.cursor.pos - 1, |st.entries|)) else st
  }

  /** Clearing releases every node but leaves the cursor variable alone. */
  function ClearStep<Key, Element>(st: State<Key, Element>): State<Key, Element> {
    State([], if st.cursor.At? then Dangling else st.cursor)
  }

  function Step<Key, Element>(h: Hashing<Key>, st: State<Key, Element>, op: Op<Key, Element>)
    : (r: (State<Key, Element>, Status))
    requires Allowed(st, op) && CursorInRange(st)
    ensures CursorInRange(r.0)
  {
    match op
    case Add(k, e, allocates) => AddStep(h, st, k, e, allocates)
    case Delete(k) => DeleteStep(h, st, k)
    case DeleteCurrent => DeleteCurrentStep(st)
    case Goto(k) => GotoStep(h, st, k)
    case First => (FirstStep(st), Ok)
    case Last => (LastStep(st), Ok)
    case Next => (NextStep(st), Ok)
    case Previous => (PreviousStep(st), Ok)
    case Clear => (ClearStep(st), Ok)
  }

  // ---------------------------------------------------------------- what every run keeps

  /** Every entry sits in an existing bucket, and no entry answers the search for a later one. */
  ghost predicate NoClash<Key, Element>(h: Hashing<Key>, s: seq<Entry<Key, Element>>) {
    && (forall i :: 0 <= i < |s| ==> h.index(s[i].key) < h.size)
    && (forall i, j {:trigger Matches(h, s[i].key, s[j].key)} :: 0 <= i < j < |s| ==> !Matches(h, s[i].key, s[j].key))
  }

  ghost predicate Consistent<Key, Element>(h: Hashing<Key>, st: State<Key, Element>) {
    NoClash(h, st.entries) && CursorInRange(st)
  }

  lemma RemoveKeepsNoClash<Key, Element>(h: Hashing<Key>, s: seq<Entry<Key, Element>>, p: nat)
    requires NoClash(h, s) && p < |s|
    ensures NoClash(h, Remove(s, p))
  {
    var r := Remove(s, p);
    assert forall i :: 0 <= i < |r| ==> r[i] == s[if i < p then i else i + 1];
  }

  /** Every legal step keeps the table free of clashes and its cursor in range or not pointing. */
  lemma StepKeepsConsistent<Key, Element>(h: Hashing<Key>, st: State<Key, Element>, op: Op<Key, Element>)
    requires Consistent(h, st) && Allowed(st, op)
    ensures Consistent(h, Step(h, st, op).0)
  {
    var s := st.entries;
    if op.Delete? && h.index(op.key) < h.size && Find(h, s, op.key) >= 0 {
      RemoveKeepsNoClash(h, s, Find(h, s, op.key));
    } else if op.DeleteCurrent? && st.cursor.At? {
      RemoveKeepsNoClash(h, s, st.cursor.pos);
    }
  }

  /** A run is legal when no step dereferences a dangling cursor. */
  predicate LegalRun<Key, Element>(h: Hashing<Key>, st: State<Key, Element>, ops: seq<Op<Key, Element>>)
    requires CursorInRange(st)
    decreases |ops|
  {
    ops == [] ||
    (Allowed(st, ops[0]) && LegalRun(h, Step(h, st, ops[0]).0, ops[1..]))
  }

  function Run<Key, Element>(h: Hashing<Key>, st: State<Key, Element>, ops: seq<Op<Key, Element>>)
    : (State<Key, Element>, seq<Status>)
    requires CursorInRange(st)
    requires LegalRun(h, st, ops)
    decreases |ops|
  {
    if ops == [] then (st, [])
    else
      var (st1, status) := Step(h, st, ops[0]);
      var (st2, rest) := Run(h, st1, ops[1..]);
      (st2, [status] + rest)
  }

  lemma {:induction false} RunKeepsConsistent<Key, Element>(
    h: Hashing<Key>, st: State<Key, Element>, ops: seq<Op<Key, Element>>)
    requires Consistent(h, st) && LegalRun(h, st, ops)
    ensures Consistent(h, Run(h, st, ops).0)
    decreases |ops|
  {
    if ops != [] {
      StepKeepsConsistent(h, st, ops[0]);
      RunKeepsConsistent(h, Step(h, st, ops[0]).0, ops[1..]);
    }
  }

  /** As long as nobody clears the table, a cursor that may be dereferenced stays so: every sequence
      of calls is legal. */
  lemma {:induction false} OnlyClearLosesTheCursor<Key, Element>(
    h: Hashing<Key>, st: State<Key, Element>, ops: seq<Op<Key, Element>>)
    requires CursorInRange(st) && !st.cursor.Dangling?
    requires forall i :: 0 <= i < |ops| ==> !ops[i].Clear?
    ensures LegalRun(h, st, ops) && !Run(h, st, ops).0.cursor.Dangling?
    decreases |ops|
  {
    if ops != [] {
      OnlyClearLosesTheCursor(h, Step(h, st, ops[0]).0, ops[1..]);
    }
  }

  /** What each kind of call makes of a cursor that must not be dereferenced, and when `Clear` makes one. */
  lemma WhenTheCursorDangles<Key, Element>(h: Hashing<Key>, st: State<Key, Element>, op: Op<Key, Element>)
    requires CursorInRange(st) && Allowed(st, op)
    ensures Step(h, st, op).0.cursor.Dangling? <==>
              if op.Clear? then !st.cursor.Null?
              else st.cursor.Dangling? && (op.Add? || ((op.Goto? || op.Delete?) && h.index(op.key) >= h.size))
  {
  }

  /** How many of the calls answered so far created a node. */
  function Created<Key, Element>(ops: seq<Op<Key, Element>>, statuses: seq<Status>): nat
    requires |statuses| <= |ops|
  {
    if statuses == [] then 0
    else Created(ops, statuses[..|statuses| - 1]) + if ops[|statuses| - 1].Add? && statuses[|statuses| - 1] == Ok then 1 else 0
  }

  /** `st` and `statuses` are what the run of `ops` from `start` has produced so far. */
  ghost predicate Replayed<Key, Element>(h: Hashing<Key>, start: State<Key, Element>, ops: seq<Op<Key, Element>>,
                                         st: State<Key, Element>, statuses: seq<Status>)
  {
    && CursorInRange(start) && LegalRun(h, start, ops)
    && |statuses| <= |ops|
    && CursorInRange(st) && LegalRun(h, st, ops[|statuses|..])
    && Run(h, start, ops).0 == Run(h, st, ops[|statuses|..]).0
    && Run(h, start, ops).1 == statuses + Run(h, st, ops[|statuses|..]).1
  }

  lemma ReplayBegins<Key, Element>(h: Hashing<Key>, start: State<Key, Element>, ops: seq<Op<Key, Element>>)
    requires CursorInRange(start) && LegalRun(h, start, ops)
    ensures Replayed(h, start, ops, start, [])
  {
    assert ops[0..] == ops;
  }

  lemma RunSplits<Key, Element>(h: Hashing<Key>, st: State<Key, Element>, ops: seq<Op<Key, Element>>)
    requires CursorInRange(st) && ops != [] && LegalRun(h, st, ops)
    ensures Allowed(st, ops[0]) && LegalRun(h, Step(h, st, ops[0]).0, ops[1..])
    ensures Run(h, st, ops).0 == Run(h, Step(h, st, ops[0]).0, ops[1..]).0
    ensures Run(h, st, ops).1 == [Step(h, st, ops[0]).1] + Run(h, Step(h, st, ops[0]).0, ops[1..]).1
  {
  }

  lemma ReplayStep<Key, Element>(h: Hashing<Key>, start: State<Key, Element>, ops: seq<Op<Key, Element>>,
                                 st: State<Key, Element>, statuses: seq<Status>)
    requires Replayed(h, start, ops, st, statuses) && |statuses| < |ops|
    ensures Allowed(st, ops[|statuses|])
    ensures var (next, status) := Step(h, st, ops[|statuses|]);
            Replayed(h, start, ops, next, statuses + [status])
  {
    var rest := ops[|statuses|..];
    RunSplits(h, st, rest);
    var (next, status) := Step(h, st, rest[0]);
    assert rest[1..] == ops[|statuses + [status]|..];
    var tail := Run(h, next, rest[1..]).1;
    assert statuses + ([status] + tail) == statuses + [status] + tail;
  }

  lemma ReplayEnds<Key, Element>(h: Hashing<Key>, start: State<Key, Element>, ops: seq<Op<Key, Element>>,
                                 st: State<Key, Element>, statuses: seq<Status>)
    requires Replayed(h, start, ops, st, statuses) && |statuses| == |ops|
    ensures (st, statuses) == Run(h, start, ops)
  {
    assert ops[|ops|..] == [] && statuses + [] == statuses;
  }

  // ---------------------------------------------------------------- the reference table

  /** `operator==` is an equivalence and equal keys have equal hash indices. */
  ghost predicate Lawful<Key(!new)>(h: Hashing<Key>) {
    && (forall a :: h.same(a, a))
    && (forall a, b :: h.same(a, b) ==> h.same(b, a))
    && (forall a, b, c :: h.same(a, b) && h.same(b, c) ==> h.same(a, c))
    && (forall a, b :: h.same(a, b) ==> h.index(a) == h.index(b))
  }

  /** Some entry of the whole list has a key equal to `k`. */
  ghost predicate Present<Key, Element>(h: Hashing<Key>, s: seq<Entry<Key, Element>>, k: Key) {
    exists i :: 0 <= i < |s| && h.same(s[i].key, k)
  }

  function Filter<T>(s: seq<T>, keep: T -> bool): seq<T> {
    if s == [] then []
    else Filter(s[..|s| - 1], keep) + if keep(s[|s| - 1]) then [s[|s| - 1]] else []
  }

  /** The list without the entries whose key equals `k`, in the old order. */
  function Without<Key, Element>(h: Hashing<Key>, s: seq<Entry<Key, Element>>, k: Key): seq<Entry<Key, Element>> {
    Filter(s, (e: Entry<Key, Element>) => !h.same(e.key, k))
  }

  /** Front-to-back search over the whole list; `|s|` when absent. */
  function LinearSearch<Key, Element>(h: Hashing<Key>, s: seq<Entry<Key, Element>>, k: Key): (p: nat)
    ensures p <= |s|
    ensures p < |s| ==> h.same(s[p].key, k)
    ensures forall q :: 0 <= q < p ==> !h.same(s[q].key, k)
  {
    if s == [] then 0
    else if h.same(s[0].key, k) then 0
    else
      var p := LinearSearch(h, s[1..], k);
      assert forall q :: 0 < q < |s| ==> s[q] == s[1..][q - 1];
      p + 1
  }

  /** The insertion-ordered map: no buckets, whole-list search, deletion by filtering. */
  ghost function ReferenceStep<Key, Element>(h: Hashing<Key>, st: State<Key, Element>, op: Op<Key, Element>)
    : (State<Key, Element>, Status)
    requires Allowed(st, op) && CursorInRange(st)
  {
    var s := st.entries;
    match op
    case Add(k, e, allocates) =>
      if h.index(k) >= h.size then (st, InvalidHashIndex)
      else if Present(h, s, k) then (st, AlreadyExists)
      else if !allocates then (st, OutOfMemory)
      else (st.(entries := s + [Entry(k, e)]), Ok)
    case Delete(k) =>
      if h.index(k) >= h.size then (st, InvalidHashIndex)
      else if !Present(h, s, k) then (st.(cursor := Null), NotFound)
      else (State(Without(h, s, k), CursorAt(LinearSearch(h, s, k), |s| - 1)), Ok)
    case Goto(k) =>
      if h.index(k) >= h.size then (st, InvalidHashIndex)
      else if !Present(h, s, k) then (st.(cursor := Null), NotFound)
      else (st.(cursor := At(LinearSearch(h, s, k))), Ok)
    case DeleteCurrent =>
      if st.cursor.Null? then (st, NoCurrentElement)
      else
        var p := st.cursor.pos;
        (State(s[..p] + s[p + 1..], if p + 1 < |s| then At(p) else Null), Ok)
    case First => (State(s, if s == [] then Null else At(0)), Ok)
    case Last => (State(s, if s == [] then Null else At(|s| - 1)), Ok)
    case Next => (State(s, if st.cursor.At? && st.cursor.pos + 1 < |s| then At(st.cursor.pos + 1) else Null), Ok)
    case Previous => (State(s, if st.cursor.At? && st.cursor.pos > 0 then At(st.cursor.pos - 1) else Null), Ok)
    case Clear => (State([], if st.cursor.Null? then Null else Dangling), Ok)
  }

  /** No two entries of a reachable table have equal keys. */
  lemma KeysAreUnique<Key(!new), Element>(h: Hashing<Key>, s: seq<Entry<Key, Element>>, i: nat, j: nat)
    requires Lawful(h) && NoClash(h, s)
    requires i < |s| && j < |s| && h.same(s[i].key, s[j].key)
    ensures i == j
  {
    assert i < j ==> !Matches(h, s[i].key, s[j].key);
    assert j < i ==> !Matches(h, s[j].key, s[i].key);
  }

  /** With lawful keys a one-bucket search finds exactly what a whole-list search finds. */
  lemma FindIsLinearSearch<Key(!new), Element>(h: Hashing<Key>, s: seq<Entry<Key, Element>>, k: Key)
    requires Lawful(h) && NoClash(h, s)
    ensures Find(h, s, k) >= 0 <==> Present(h, s, k)
    ensures Present(h, s, k) ==> Find(h, s, k) == LinearSearch(h, s, k)
  {
    var p, q := Find(h, s, k), LinearSearch(h, s, k);
    if q < |s| {
      assert Matches(h, s[q].key, k);
      assert h.same(k, s[q].key);
      KeysAreUnique(h, s, p, q);
    }
  }

  lemma {:induction false} FilterKeepsAll<T>(s: seq<T>, keep: T -> bool)
    requires forall i :: 0 <= i < |s| ==> keep(s[i])
    ensures Filter(s, keep) == s
  {
    if s != [] {
      FilterKeepsAll(s[..|s| - 1], keep);
      assert s == s[..|s| - 1] + [s[|s| - 1]];
    }
  }

  lemma {:induction false} FilterDropsOne<T>(s: seq<T>, keep: T -> bool, p: nat)
    requires p < |s| && !keep(s[p])
    requires forall i :: 0 <= i < |s| && i != p ==> keep(s[i])
    ensures Filter(s, keep) == Remove(s, p)
  {
    var front := s[..|s| - 1];
    if p == |s| - 1 {
      FilterKeepsAll(front, keep);
    } else {
      FilterDropsOne(front, keep, p);
      assert Remove(s, p) == Remove(front, p) + [s[|s| - 1]];
    }
  }

  /** In a table without clashes only one entry equals a given key, so filtering removes just it. */
  lemma WithoutRemovesOne<Key(!new), Element>(h: Hashing<Key>, s: seq<Entry<Key, Element>>, k: Key)
    requires Lawful(h) && NoClash(h, s) && Find(h, s, k) >= 0
    ensures Without(h, s, k) == Remove(s, Find(h, s, k))
  {
    var p := Find(h, s, k);
    assert h.same(k, s[p].key);
    forall i | 0 <= i < |s| && h.same(s[i].key, k) ensures i == p {
      KeysAreUnique(h, s, i, p);
    }
    FilterDropsOne(s, (e: Entry<Key, Element>) => !h.same(e.key, k), p);
  }

  lemma StepRefinesReference<Key(!new), Element>(h: Hashing<Key>, st: State<Key, Element>, op: Op<Key, Element>)
    requires Lawful(h) && Consistent(h, st) && Allowed(st, op)
    ensures Step(h, st, op) == ReferenceStep(h, st, op)
  {
    if op.Add? || op.Delete? || op.Goto? {
      FindIsLinearSearch(h, st.entries, op.key);
      if Find(h, st.entries, op.key) >= 0 {
        WithoutRemovesOne(h, st.entries, op.key);
      }
    }
  }

  /** From an entry, one move undoes the other, if and only if the first did not run off the list. */
  lemma MovesUndoEachOtherIff<Key, Element>(h: Hashing<Key>, st: State<Key, Element>)
    requires CursorInRange(st) && st.cursor.At?
    ensures Step(h, Step(h, st, Next).0, Previous).0 == st <==> st.cursor.pos + 1 < |st.entries|
    ensures Step(h, Step(h, st, Previous).0, Next).0 == st <==> st.cursor.pos > 0
  {
  }

  /** Deleting the current entry is deleting its key; without a current entry it is refused. */
  lemma DeleteCurrentIsDelete<Key(!new), Element>(h: Hashing<Key>, st: State<Key, Element>)
    requires Lawful(h) && Consistent(h, st)
    ensures st.cursor.At? ==> Step(h, st, DeleteCurrent) == Step(h, st, Delete(st.entries[st.cursor.pos].key))
    ensures st.cursor.Null? ==> Step(h, st, DeleteCurrent) == (st, NoCurrentElement)
  {
    if st.cursor.At? {
      var p := st.cursor.pos;
      var k := st.entries[p].key;
      FindIsLinearSearch(h, st.entries, k);
      assert h.same(st.entries[p].key, k);
      KeysAreUnique(h, st.entries, Find(h, st.entries, k), p);
    }
  }

  ghost predicate LegalReferenceRun<Key, Element>(h: Hashing<Key>, st: State<Key, Element>, ops: seq<Op<Key, Element>>)
    decreases |ops|
  {
    CursorInRange(st) &&
    (ops == [] ||
     (Allowed(st, ops[0]) && LegalReferenceRun(h, ReferenceStep(h, st, ops[0]).0, ops[1..])))
  }

  ghost function ReferenceRun<Key, Element>(h: Hashing<Key>, st: State<Key, Element>, ops: seq<Op<Key, Element>>)
    : (State<Key, Element>, seq<Status>)
    requires LegalReferenceRun(h, st, ops)
    decreases |ops|
  {
    if ops == [] then (st, [])
    else
      var (st1, status) := ReferenceStep(h, st, ops[0]);
      var (st2, rest) := ReferenceRun(h, st1, ops[1..]);
      (st2, [status] + rest)
  }

  /** Every legal run of the table is a run of the insertion-ordered map, with the same statuses. */
  lemma {:induction false} RunRefinesReference<Key(!new), Element>(
    h: Hashing<Key>, st: State<Key, Element>, ops: seq<Op<Key, Element>>)
    requires Lawful(h) && Consistent(h, st) && LegalRun(h, st, ops)
    ensures LegalReferenceRun(h, st, ops)
    ensures Run(h, st, ops) == ReferenceRun(h, st, ops)
    decreases |ops|
  {
    if ops != [] {
      StepRefinesReference(h, st, ops[0]);
      StepKeepsConsistent(h, st, ops[0]);
      RunRefinesReference(h, Step(h, st, ops[0]).0, ops[1..]);
    }
  }

  /** Exactly when bucket search is membership: for every table and every key, if and only if a key
      stored in some bucket shares its index with every key equal to it. */
  lemma BucketSearchIsMembershipIff<Key(!new), Element(!new)>(h: Hashing<Key>, e: Element)
    ensures (forall s: seq<Entry<Key, Element>>, k :: NoClash(h, s) ==> (Has(h, s, k) <==> Present(h, s, k)))
       <==> (forall a, k :: h.index(a) < h.size && h.same(a, k) ==> h.index(a) == h.index(k))
  {
    if forall s: seq<Entry<Key, Element>>, k :: NoClash(h, s) ==> (Has(h, s, k) <==> Present(h, s, k)) {
      forall a, k | h.index(a) < h.size && h.same(a, k) ensures h.index(a) == h.index(k) {
        var s := [Entry(a, e)];
        assert h.same(s[0].key, k);
        assert NoClash(h, s) && Present(h, s, k) && Has(h, s, k);
      }
    }
    if forall a, k :: h.index(a) < h.size && h.same(a, k) ==> h.index(a) == h.index(k) {
      forall s: seq<Entry<Key, Element>>, k | NoClash(h, s) ensures Has(h, s, k) <==> Present(h, s, k) {
        if Present(h, s, k) {
          var i :| 0 <= i < |s| && h.same(s[i].key, k);
          assert Matches(h, s[i].key, k);
        }
      }
    }
  }

  // ---------------------------------------------------------------- deleting while iterating

  /** A sweep over `all` has visited its first entries: of these only the kept ones are left, and the
      cursor is on the first entry not visited yet. */
  ghost predicate Swept<Key, Element>(st: State<Key, Element>, all: seq<Entry<Key, Element>>,
                                      visited: seq<Entry<Key, Element>>, keep: Entry<Key, Element> -> bool)
  {
    && visited <= all
    && st.entries == Filter(visited, keep) + all[|visited|..]
    && st.cursor == CursorAt(|Filter(visited, keep)|, |st.entries|)
  }

  /** One turn of a sweep: the entry under the cursor is passed over or deleted. */
  function SweepTurn<Key, Element>(st: State<Key, Element>, keep: Entry<Key, Element> -> bool): State<Key, Element>
    requires CursorInRange(st) && st.cursor.At?
  {
    if keep(st.entries[st.cursor.pos]) then NextStep(st) else DeleteCurrentStep(st).0
  }

  lemma SweepBegins<Key, Element>(st: State<Key, Element>, keep: Entry<Key, Element> -> bool)
    ensures Swept(FirstStep(st), st.entries, [], keep)
  {
  }

  lemma SweepEnds<Key, Element>(st: State<Key, Element>, all: seq<Entry<Key, Element>>,
                                visited: seq<Entry<Key, Element>>, keep: Entry<Key, Element> -> bool)
    requires Swept(st, all, visited, keep) && st.cursor.Null?
    ensures visited == all && st == State(Filter(all, keep), Null)
  {
  }

  lemma SweepStep<Key, Element>(st: State<Key, Element>, all: seq<Entry<Key, Element>>,
                                visited: seq<Entry<Key, Element>>, keep: Entry<Key, Element> -> bool)
    requires Swept(st, all, visited, keep) && !st.cursor.Null?
    ensures CursorInRange(st) && |visited| < |all|
    ensures Swept(SweepTurn(st, keep), all, visited + [st.entries[st.cursor.pos]], keep)
  {
    var v, kept := |visited|, Filter(visited, keep);
    assert (visited + [all[v]])[..v] == visited;
    if keep(all[v]) {
      assert kept + all[v..] == (kept + [all[v]]) + all[v + 1..];
    } else {
      assert Remove(kept + all[v..], |kept|) == kept + all[v + 1..];
    }
  }
}
