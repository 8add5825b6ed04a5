/**
 * Chains of block-pointer tables.  A table holds extents and ends with a mark, with a link to a
 * further table, or at an entry that stops the load.  Flattening a chain gives the extents of all
 * its tables in order; the loaders are shown to copy just that.
 */
module BlockChains {
  import opened Bytes
  import opened Storage

  datatype End = Finish | Link(next: uint64) | Stop

  datatype Table = Table(extents: seq<Extent>, end: End)

  /** The tables that can be read, by block number. */
  type Tables = map<uint64, Table>

  datatype Verdict = Complete | Stopped | Endless

  datatype Flat = Flat(extents: seq<Extent>, verdict: Verdict)

  /** The extents of the chain that starts at `block`, up to its end, to a stop, or to a table already in `seen`. */
  ghost function Flatten(tables: Tables, block: uint64, seen: set<uint64>): Flat
    decreases |tables.Keys - seen|
  {
    if block !in tables then Flat([], Stopped)
    else if block in seen then Flat([], Endless)
    else
      var t := tables[block];
      match t.end
      case Finish => Flat(t.extents, Complete)
      case Stop => Flat(t.extents, Stopped)
      case Link(next) =>
        Shrinks(tables, block, seen);
        var rest := Flatten(tables, next, seen + {block});
        Flat(t.extents + rest.extents, rest.verdict)
  }

  lemma Shrinks(tables: Tables, block: uint64, seen: set<uint64>)
    requires block in tables && block !in seen
    ensures |tables.Keys - (seen + {block})| < |tables.Keys - seen|
  {
    var less := tables.Keys - (seen + {block});
    assert tables.Keys - seen == less + {block};
  }

  /** From `block`, the chain can be followed for `n` links. */
  ghost predicate Follows(tables: Tables, block: uint64, n: nat)
    decreases n
  {
    n == 0 || (block in tables && tables[block].end.Link? && Follows(tables, tables[block].end.next, n - 1))
  }

  /** Every table in `closed` links to a table in `closed`. */
  ghost predicate Closed(tables: Tables, closed: set<uint64>) {
    forall b :: b in closed ==> b in tables && tables[b].end.Link? && tables[b].end.next in closed
  }

  lemma {:induction false} ClosedFollows(tables: Tables, closed: set<uint64>, block: uint64, n: nat)
    requires Closed(tables, closed) && block in closed
    ensures Follows(tables, block, n)
    decreases n
  {
    if n > 0 {
      ClosedFollows(tables, closed, tables[block].end.next, n - 1);
    }
  }

  lemma {:induction false} EndlessIsClosed(tables: Tables, block: uint64, seen: set<uint64>)
    returns (closed: set<uint64>)
    requires Flatten(tables, block, seen).verdict == Endless
    requires forall b :: b in seen ==> b in tables && tables[b].end.Link? && tables[b].end.next in seen + {block}
    ensures Closed(tables, closed) && seen + {block} <= closed
    decreases |tables.Keys - seen|
  {
    if block in seen {
      closed := seen;
    } else {
      Shrinks(tables, block, seen);
      closed := EndlessIsClosed(tables, tables[block].end.next, seen + {block});
    }
  }

  lemma {:induction false} EndsSomewhere(tables: Tables, block: uint64, seen: set<uint64>) returns (n: nat)
    requires Flatten(tables, block, seen).verdict != Endless
    ensures !Follows(tables, block, n)
    decreases |tables.Keys - seen|
  {
    n := 1;
    if block in tables && tables[block].end.Link? {
      Shrinks(tables, block, seen);
      n := EndsSomewhere(tables, tables[block].end.next, seen + {block});
      n := n + 1;
    }
  }

  /** `Endless` is exact: it marks the chains that can be followed for ever, and no others. */
  lemma EndlessExactly(tables: Tables, block: uint64)
    ensures Flatten(tables, block, {}).verdict == Endless <==> forall n: nat :: Follows(tables, block, n)
  {
    if Flatten(tables, block, {}).verdict == Endless {
      var closed := EndlessIsClosed(tables, block, {});
      forall n: nat
        ensures Follows(tables, block, n)
      {
        ClosedFollows(tables, closed, block, n);
      }
    } else {
      var n := EndsSomewhere(tables, block, {});
    }
  }

  /** The tables that flattening reads, in order. */
  ghost function Trace(tables: Tables, block: uint64, seen: set<uint64>): seq<uint64>
    decreases |tables.Keys - seen|
  {
    if block !in tables || block in seen then []
    else
      match tables[block].end
      case Link(next) =>
        Shrinks(tables, block, seen);
        [block] + Trace(tables, next, seen + {block})
      case _ => [block]
  }

  lemma {:induction false} FlattenReadable(disk: Disk, tables: Tables, block: uint64, seen: set<uint64>)
    requires forall b :: b in tables ==> AllReadable(disk, tables[b].extents)
    ensures AllReadable(disk, Flatten(tables, block, seen).extents)
    decreases |tables.Keys - seen|
  {
    hide Readable;
    if block in tables && block !in seen && tables[block].end.Link? {
      Shrinks(tables, block, seen);
      FlattenReadable(disk, tables, tables[block].end.next, seen + {block});
    }
  }

  // ---------- Following a chain ----------

  /** The tables not yet used; every link of a chain that ends takes one away. */
  ghost function Unseen(tables: Tables, seen: set<uint64>): nat {
    |tables.Keys - seen|
  }

  /**
   * With the tables in `seen` used and the extents `done` behind it, the load of `flat` that is under way
   * has `block` next.
   */
  ghost predicate Continues(flat: Flat, tables: Tables, block: uint64, seen: set<uint64>, done: seq<Extent>) {
    flat.verdict != Endless && flat.verdict == Flatten(tables, block, seen).verdict &&
    flat.extents == done + Flatten(tables, block, seen).extents
  }

  lemma ContinuesStart(tables: Tables, block: uint64)
    requires Flatten(tables, block, {}).verdict != Endless
    ensures Continues(Flatten(tables, block, {}), tables, block, {}, [])
  {
    hide Flatten;
    assert [] + Flatten(tables, block, {}).extents == Flatten(tables, block, {}).extents;
  }

  /** A table that is read: its own extents come next, then whatever it links to. */
  lemma ContinuesTable(flat: Flat, tables: Tables, block: uint64, seen: set<uint64>, done: seq<Extent>)
    requires block in tables && Continues(flat, tables, block, seen, done)
    ensures var done' := done + tables[block].extents;
      match tables[block].end
      case Finish => flat == Flat(done', Complete)
      case Stop => flat == Flat(done', Stopped)
      case Link(next) =>
        Continues(flat, tables, next, seen + {block}, done') && done' <= flat.extents &&
        Unseen(tables, seen + {block}) < Unseen(tables, seen)
  {
    Shrinks(tables, block, seen);
    var t := tables[block];
    if t.end.Link? {
      var rest := Flatten(tables, t.end.next, seen + {block}).extents;
      assert done + (t.extents + rest) == (done + t.extents) + rest;
    }
  }

  lemma ContinuesUnreadable(flat: Flat, tables: Tables, block: uint64, seen: set<uint64>, done: seq<Extent>)
    requires block !in tables && Continues(flat, tables, block, seen, done)
    ensures flat == Flat(done, Stopped)
  {
  }
}
