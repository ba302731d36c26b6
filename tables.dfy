/** The tables of the relational store. A table maps each primary key to its row;
    keys come from a serial sequence that starts at 1 (`id: Mapped[int] =
    mapped_column(primary_key=True)` on every entity), so every key is below the
    sequence's next value. `Get`, `Add`, `Update` and `Remove` are the session
    primitives the data-access layer uses: `session.get`, `session.add`, attribute
    assignment and `session.delete`, each followed by a commit. `Listing` is the
    table read without a filter, in key order. */
module Tables {
  import opened Outcomes

  /** A stored row: its primary key and its columns. */
  datatype Row<T> = Row(id: int, val: T)

  /** Keys strictly increase along `s`. */
  ghost predicate KeyOrdered<T>(s: seq<Row<T>>) {
    forall i, j :: 0 <= i < j < |s| ==> s[i].id < s[j].id
  }

  /** A table: its rows by key and the next value of its key sequence. */
  datatype Table<T> = Table(rows: map<int, T>, nextId: int) {

    /** Keys are positive and below the sequence's next value. */
    ghost predicate Valid() {
      && 1 <= nextId
      && forall id :: id in rows ==> 1 <= id < nextId
    }

    predicate Has(id: int) {
      id in rows
    }

    /** `session.get`: the row stored under `id`, if any. */
    function Get(id: int): (r: Option<Row<T>>)
      ensures r.Some? <==> Has(id)
      ensures r.Some? ==> r.value.id == id && r.value.val == rows[id]
    {
      if id in rows then Some(Row(id, rows[id])) else None
    }

    /** `session.add` and commit: a row under the next key of the sequence, a key
        no row holds yet; no existing row changes. */
    function Add(v: T): (t: Table<T>)
      requires Valid()
      ensures t.Valid() && t.nextId == nextId + 1
      ensures !Has(nextId) && t.Get(nextId) == Some(Row(nextId, v))
      ensures forall id :: id != nextId ==> t.Get(id) == Get(id)
    {
      Table(rows[nextId := v], nextId + 1)
    }

    /** Attribute assignment on the row stored under `id`, and commit: that row
        takes the new columns, every other row and every key stays. */
    function Update(id: int, v: T): (t: Table<T>)
      requires Has(id)
      ensures t.Get(id) == Some(Row(id, v))
      ensures forall other :: other != id ==> t.Get(other) == Get(other)
      ensures t.nextId == nextId && t.rows.Keys == rows.Keys
      ensures Valid() ==> t.Valid()
    {
      Table(rows[id := v], nextId)
    }

    /** `session.delete` and commit: the row stored under `id` leaves the table,
        every other row stays. */
    function Remove(id: int): (t: Table<T>)
      requires Has(id)
      ensures !t.Has(id) && t.nextId == nextId
      ensures forall other :: other != id ==> t.Get(other) == Get(other)
      ensures Valid() ==> t.Valid()
    {
      Table(rows - {id}, nextId)
    }

    /** The rows with keys from `lo` up to the sequence's next value, in key order. */
    function RowsFrom(lo: int): seq<Row<T>>
      decreases nextId - lo
    {
      if lo >= nextId then []
      else if lo in rows then [Row(lo, rows[lo])] + RowsFrom(lo + 1)
      else RowsFrom(lo + 1)
    }

    /** The table read without a filter: every row once, in key order. */
    function Listing(): (s: seq<Row<T>>)
      requires Valid()
      ensures forall i :: 0 <= i < |s| ==> Get(s[i].id) == Some(s[i])
      ensures forall x :: x in s ==> Get(x.id) == Some(x)
      ensures forall id :: Has(id) ==> Row(id, rows[id]) in s
      ensures KeyOrdered(s)
    {
      RowsFromSpec(this, 1);
      RowsFrom(1)
    }
  }

  /** `RowsFrom(lo)` holds exactly the stored rows with keys from `lo` on, once
      each, in key order. */
  lemma {:induction false} RowsFromSpec<T>(t: Table<T>, lo: int)
    ensures forall i :: 0 <= i < |t.RowsFrom(lo)| ==>
              lo <= t.RowsFrom(lo)[i].id < t.nextId && t.Get(t.RowsFrom(lo)[i].id) == Some(t.RowsFrom(lo)[i])
    ensures forall id :: lo <= id && t.Has(id) && id < t.nextId ==> Row(id, t.rows[id]) in t.RowsFrom(lo)
    ensures KeyOrdered(t.RowsFrom(lo))
    decreases t.nextId - lo
  {
    if lo < t.nextId {
      RowsFromSpec(t, lo + 1);
    }
  }

  /** A row added under the next key comes last in the listing, after every row that
      was there before, which keep their order. */
  lemma {:induction false} ListingAdd<T>(t: Table<T>, v: T)
    requires t.Valid()
    ensures t.Add(v).Listing() == t.Listing() + [Row(t.nextId, v)]
  {
    RowsFromAdd(t, v, 1);
  }

  lemma {:induction false} RowsFromAdd<T>(t: Table<T>, v: T, lo: int)
    requires t.Valid() && lo <= t.nextId
    ensures t.Add(v).RowsFrom(lo) == t.RowsFrom(lo) + [Row(t.nextId, v)]
    decreases t.nextId - lo
  {
    var t' := t.Add(v);
    if lo == t.nextId {
      assert t'.RowsFrom(lo) == [Row(lo, v)] + t'.RowsFrom(lo + 1);
      assert t.RowsFrom(lo) == [];
    } else {
      RowsFromAdd(t, v, lo + 1);
      if lo in t.rows {
        calc {
          t'.RowsFrom(lo);
          [Row(lo, t.rows[lo])] + t'.RowsFrom(lo + 1);
          [Row(lo, t.rows[lo])] + (t.RowsFrom(lo + 1) + [Row(t.nextId, v)]);
          ([Row(lo, t.rows[lo])] + t.RowsFrom(lo + 1)) + [Row(t.nextId, v)];
        }
      }
    }
  }

  /** `.where(...)` over rows in listing order: the rows whose columns satisfy `p`,
      in the order they came; a row is kept exactly when it satisfies `p`. */
  function Where<T>(s: seq<Row<T>>, p: T -> bool): (r: seq<Row<T>>)
    ensures forall i :: 0 <= i < |r| ==> r[i] in s && p(r[i].val)
    ensures forall x :: x in s && p(x.val) ==> x in r
    ensures KeyOrdered(s) ==> KeyOrdered(r)
  {
    if |s| == 0 then []
    else
      var rest := Where(s[1..], p);
      assert KeyOrdered(s) ==> forall i :: 0 <= i < |rest| ==> s[0].id < rest[i].id by {
        if KeyOrdered(s) {
          forall i | 0 <= i < |rest| ensures s[0].id < rest[i].id {
            HeadBelowTail(s, rest[i]);
          }
        }
      }
      if p(s[0].val) then [s[0]] + rest else rest
  }

  /** In a key-ordered sequence the first row's key is below every later row's. */
  lemma HeadBelowTail<T>(s: seq<Row<T>>, x: Row<T>)
    requires KeyOrdered(s) && |s| > 0 && x in s[1..]
    ensures s[0].id < x.id
  {
    var k :| 0 <= k < |s[1..]| && s[1..][k] == x;
    assert s[k + 1] == x;
  }

  /** A sequence read back to front. */
  function Reversed<T>(s: seq<T>): (r: seq<T>)
    ensures |r| == |s|
    ensures forall i :: 0 <= i < |s| ==> r[i] == s[|s| - 1 - i]
  {
    seq(|s|, i requires 0 <= i < |s| => s[|s| - 1 - i])
  }

  /** Reading back to front keeps the same elements. */
  lemma ReversedMembers<T>(s: seq<T>)
    ensures forall x :: x in Reversed(s) <==> x in s
  {
    var r := Reversed(s);
    forall x | x in s ensures x in r {
      var k :| 0 <= k < |s| && s[k] == x;
      assert r[|s| - 1 - k] == x;
    }
  }
}
