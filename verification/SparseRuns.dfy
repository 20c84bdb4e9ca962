/** Runs of the hash table of libchash.c: what a whole sequence of calls does and answers, and a key deleted and then
  * handed to HashFindOrInsert, whose item is lost in every table that did not shrink. */
module SparseRuns {
  import opened Options
  import opened SparseGroup
  import opened SparseArray
  import opened SparseModel
  import opened SparseTable

  /** Where a key was deleted, the first bucket open to it is a deleted marker. */
  lemma {:induction false} MarkerOpen<K(!new)>(hash: K -> nat, cells: seq<Option<Item<K>>>, key: K, l: nat, d: nat)
    requires |cells| > 0 && Reached(hash, cells, key, l, d) && l < |cells| && cells[l].Some? && !Live(cells[l])
    ensures Tombstoned(hash, cells, key)
    decreases d
  {
    hide Path, Live;
    if e: nat :| e < d && !Live(cells[Path(hash, key, e, |cells|)]) {
      MarkerOpen(hash, cells, key, Path(hash, key, e, |cells|), e);
    } else {
      assert FirstOpen(hash, cells, key, l, d);
    }
  }

  /** Marking the bucket of a key that is there leaves the key tombstoned. */
  lemma DeletedTombstoned<K(!new)>(hash: K -> nat, cells: seq<Option<Item<K>>>, place: map<K, nat>, key: K)
    requires |cells| > 0 && Indexed(cells, place) && AllReachable(hash, cells, place) && key in place
    ensures place[key] < |cells| && Tombstoned(hash, cells[place[key] := Some(Item(DELETED, key))], key)
  {
    hide Path;
    var l := place[key];
    var cells' := cells[l := Some(Item(DELETED, key))];
    assert Reachable(hash, cells, key, l);
    var d: nat :| Reached(hash, cells, key, l, d);
    assert Reached(hash, cells', key, l, d);
    MarkerOpen(hash, cells', key, l, d);
  }

  /** HashDelete and then HashFindOrInsert of the same key, in a table the deletion does not shrink: the key is
    * not there afterwards, and the item count is one too high. */
  method DeleteThenFindOrInsert<K(==,!new)>(t: HashTable<K>, key: K, data: nat)
    requires t.Valid() && key in t.place && data != DELETED && t.cItems < 0x2000_0000
    requires t.cBuckets < 1024 || 5 * (t.cItems - 1) >= t.cBuckets
    modifies t, t.table
    ensures t.place.Keys == old(t.place).Keys - {key}
    ensures t.cItems == |t.place| + 1
  {
    ghost var cells, place := Cells(t.table[..]), t.place;
    var _ := t.Delete(key);
    DeletedTombstoned(t.hash, cells, place, key);
    var _ := t.FindOrInsert(key, data);
  }

  /** From a new table: insert, delete, find or insert. */
  method InsertDeleteFindOrInsert<K(==,!new)>(hash: K -> nat, key: K, data: nat) returns (t: HashTable<K>)
    requires data != DELETED
    ensures t.place == map[] && t.cItems == 1
  {
    t := new HashTable(hash);
    var _ := t.Insert(key, data);
    DeleteThenFindOrInsert(t, key, data);
  }

  // ---------- whole runs ----------

  datatype Call<K> = Insert(key: K, data: nat) | Find(key: K) | Delete(key: K) | DeleteLast | Clear

  /** What a call answers: the data of an item, or whether there was something to delete. */
  datatype Answer = Data(data: Option<nat>) | Deleted(found: bool) | Nothing

  /** A finite map, and the key the last call found, if that call was HashFind. */
  datatype State<!K> = State(items: map<K, nat>, last: Option<K>)

  function Next<K>(s: State<K>, c: Call<K>): State<K> {
    match c
    case Insert(k, v) => State(s.items[k := v], None)
    case Find(k) => State(s.items, if k in s.items then Some(k) else None)
    case Delete(k) => State(s.items - {k}, None)
    case DeleteLast => State(if s.last.Some? then s.items - {s.last.value} else s.items, None)
    case Clear => State(map[], None)
  }

  function Reply<K>(s: State<K>, c: Call<K>): Answer {
    match c
    case Insert(_, v) => Data(Some(v))
    case Find(k) => Data(if k in s.items then Some(s.items[k]) else None)
    case Delete(k) => Deleted(k in s.items)
    case DeleteLast => Deleted(s.last.Some?)
    case Clear => Nothing
  }

  function After<K>(s: State<K>, calls: seq<Call<K>>): State<K>
    decreases |calls|
  {
    if calls == [] then s else Next(After(s, calls[..|calls| - 1]), calls[|calls| - 1])
  }

  /** The table stands for the state. */
  ghost predicate Agrees<K(!new)>(t: HashTable<K>, s: State<K>)
    reads t, t.table
  {
    && t.Valid() && t.Contents() == s.items && (t.posLastFind.Some? <==> s.last.Some?)
    && (s.last.Some? ==> t.FoundLast(s.last.value))
  }

  /** The data of the item a pointer leads to. */
  method DataAt<K(==,!new)>(t: HashTable<K>, p: Ptr, ghost key: K) returns (data: nat)
    requires t.Valid() && key in t.place && Points(t.table[..], p, t.place[key])
    ensures data == t.Contents()[key]
  {
    hide GroupOk, Points, Reached, Filled, AllReachable;
    PointsTo(t.table[..], p, t.place[key]);
    data := t.table[p.group].binSparse[p.offset].data;
  }

  method DeleteFound<K(==,!new)>(t: HashTable<K>, ghost s: State<K>) returns (found: bool)
    requires Agrees(t, s)
    modifies t, t.table
    ensures Agrees(t, Next(s, DeleteLast)) && (t.table == old(t.table) || fresh(t.table)) && found == s.last.Some?
    ensures t.cItems <= old(t.cItems)
  {
    hide HashTable.Valid, HashTable.Contents, HashTable.FoundLast;
    forall k | s.last.Some? && t.FoundLast(k) ensures k == s.last.value { FoundOne(t, k, s.last.value); }
    found := t.DeleteLast();
  }

  /** One call. */
  method Make<K(==,!new)>(t: HashTable<K>, c: Call<K>, ghost s: State<K>) returns (a: Answer)
    requires Agrees(t, s) && (c.Insert? ==> c.data != DELETED && t.cItems + 1 < 0x2000_0000)
    modifies t, t.table
    ensures Agrees(t, Next(s, c)) && (t.table == old(t.table) || fresh(t.table)) && a == Reply(s, c)
    ensures t.cItems <= old(t.cItems) + 1
  {
    hide HashTable.Valid, HashTable.Contents, HashTable.FoundLast;
    match c {
      case Insert(k, v) =>
        var p := t.Insert(k, v);
        var d := DataAt(t, p, k);
        a := Data(Some(d));
      case Find(k) =>
        var p := t.Find(k);
        if p.None? { return Data(None); }
        var d := DataAt(t, p.value, k);
        a := Data(Some(d));
      case Delete(k) =>
        var found := t.Delete(k);
        a := Deleted(found);
      case DeleteLast =>
        var found := DeleteFound(t, s);
        a := Deleted(found);
      case Clear =>
        t.Clear();
        a := Nothing;
    }
  }

  /** Over every run, the table does and answers what the finite map with its last found key does. */
  method RunCalls<K(==,!new)>(t: HashTable<K>, calls: seq<Call<K>>, ghost s: State<K>) returns (answers: seq<Answer>)
    requires Agrees(t, s) && t.cItems + |calls| < 0x2000_0000
    requires forall j :: 0 <= j < |calls| && calls[j].Insert? ==> calls[j].data != DELETED
    modifies t, t.table
    ensures Agrees(t, After(s, calls)) && |answers| == |calls|
    ensures forall j :: 0 <= j < |calls| ==> answers[j] == Reply(After(s, calls[..j]), calls[j])
  {
    hide Agrees, Next, Reply;
    answers := [];
    var i := 0;
    while i < |calls|
      invariant i <= |calls| && |answers| == i && (t.table == old(t.table) || fresh(t.table))
      invariant Agrees(t, After(s, calls[..i])) && t.cItems <= old(t.cItems) + i
      invariant forall j :: 0 <= j < i ==> answers[j] == Reply(After(s, calls[..j]), calls[j])
    {
      var a := Make(t, calls[i], After(s, calls[..i]));
      answers := answers + [a];
      assert calls[..i + 1][..i] == calls[..i];
      i := i + 1;
    }
    assert calls[..i] == calls;
  }

  /** HashDeleteLast takes out exactly the key of the HashFind just before it, and nothing behind any other call. */
  lemma DeletesLastFound<K>(s: State<K>, calls: seq<Call<K>>)
    requires calls != []
    ensures var before, last := After(s, calls[..|calls| - 1]), calls[|calls| - 1];
      var now, end := After(s, calls), Next(After(s, calls), DeleteLast);
      if last.Find? && last.key in before.items then
        end.items == before.items - {last.key} && Reply(now, DeleteLast) == Deleted(true)
      else
        end.items == now.items && Reply(now, DeleteLast) == Deleted(false)
  {
  }
}
