/**
 * The `users` table of aes.py (`init_db`, `simpan_data`, `ambil_semua_data`, `update_data`,
 * `hapus_data`). The table holds its rows in ascending id order, the order in which
 * `SELECT * FROM users` returns them, and the largest id it ever issued (SQLite keeps it in
 * `sqlite_sequence` for an `AUTOINCREMENT` key), so an id is never issued twice, even after
 * its row is deleted. The four text columns are opaque to the table.
 */
module Database {
  import opened Wrappers

  /** The four text columns `nama`, `nik`, `alamat`, `no_hp`. */
  datatype Fields = Fields(name: string, nik: string, address: string, phone: string)

  /** One row: the `id` column and the four text columns. */
  datatype Row = Row(id: int, fields: Fields)

  predicate Ascending(rows: seq<Row>) {
    forall i, j :: 0 <= i < j < |rows| ==> rows[i].id < rows[j].id
  }

  /** The table as a map from id to its row's columns; a later row wins over an earlier one with the same id. */
  function AsMap(rows: seq<Row>): map<int, Fields>
    decreases |rows|
  {
    if rows == [] then map[]
    else
      var last := rows[|rows| - 1];
      AsMap(rows[..|rows| - 1])[last.id := last.fields]
  }

  /** The ids of the map are exactly the ids of the rows. */
  lemma {:induction false} AsMapKeys(rows: seq<Row>, id: int)
    ensures id in AsMap(rows) <==> exists i :: 0 <= i < |rows| && rows[i].id == id
    decreases |rows|
  {
    if rows != [] {
      var n := |rows| - 1;
      AsMapKeys(rows[..n], id);
      if id in AsMap(rows[..n]) {
        var i :| 0 <= i < n && rows[..n][i].id == id;
        assert rows[i].id == id;
      }
      if i :| 0 <= i < |rows| && rows[i].id == id {
        if i < n {
          assert rows[..n][i].id == id;
        }
      }
    }
  }

  /** The first listed row with that id, or None: how the edit form looks up the row being edited. */
  function FindRow(rows: seq<Row>, id: int): (r: Option<Row>)
    ensures r.Some? ==> r.value in rows && r.value.id == id
    ensures r.None? ==> forall i :: 0 <= i < |rows| ==> rows[i].id != id
    decreases |rows|
  {
    if rows == [] then None
    else if rows[0].id == id then Some(rows[0])
    else FindRow(rows[1..], id)
  }

  /** In a table with ascending ids, the row found is the table's entry for that id. */
  lemma {:induction false} FindRowAsMap(rows: seq<Row>, id: int)
    requires Ascending(rows)
    ensures FindRow(rows, id) == if id in AsMap(rows) then Some(Row(id, AsMap(rows)[id])) else None
    decreases |rows|
  {
    AsMapKeys(rows, id);
    if rows != [] {
      AsMapFront(rows);
      if rows[0].id != id {
        FindRowAsMap(rows[1..], id);
      }
    }
  }

  /** With ascending ids the map can be built from the front as well. */
  lemma {:induction false} AsMapFront(rows: seq<Row>)
    requires Ascending(rows) && rows != []
    ensures rows[0].id !in AsMap(rows[1..])
    ensures AsMap(rows) == AsMap(rows[1..])[rows[0].id := rows[0].fields]
    decreases |rows|
  {
    AsMapKeys(rows[1..], rows[0].id);
    if |rows| > 1 {
      var n := |rows| - 1;
      AsMapFront(rows[..n]);
      assert rows[..n][1..] == rows[1..][..n - 1];
      assert rows[..n][0] == rows[0];
    }
  }

  /** `UPDATE users SET ... WHERE id = ?` applied to the stored rows. */
  function Replace(rows: seq<Row>, id: int, f: Fields): (r: seq<Row>)
    ensures |r| == |rows|
    ensures forall i :: 0 <= i < |r| ==> r[i].id == rows[i].id
    ensures forall i :: 0 <= i < |r| ==> r[i].fields == if rows[i].id == id then f else rows[i].fields
  {
    seq(|rows|, i requires 0 <= i < |rows| => if rows[i].id == id then Row(id, f) else rows[i])
  }

  /** Updating replaces the fields of the given id and of no other; a missing id changes nothing. */
  lemma {:induction false} AsMapReplace(rows: seq<Row>, id: int, f: Fields)
    ensures AsMap(Replace(rows, id, f)) == if id in AsMap(rows) then AsMap(rows)[id := f] else AsMap(rows)
    decreases |rows|
  {
    if rows != [] {
      var n := |rows| - 1;
      assert Replace(rows, id, f)[..n] == Replace(rows[..n], id, f);
      AsMapReplace(rows[..n], id, f);
    }
  }

  /** `DELETE FROM users WHERE id = ?` applied to the stored rows. */
  function Without(rows: seq<Row>, id: int): (r: seq<Row>)
    ensures forall i :: 0 <= i < |r| ==> r[i] in rows && r[i].id != id
    ensures Ascending(rows) ==> Ascending(r)
    decreases |rows|
  {
    if rows == [] then []
    else
      var n := |rows| - 1;
      var front := Without(rows[..n], id);
      if rows[n].id == id then front else front + [rows[n]]
  }

  /** Deleting removes the given id and no other; a missing id changes nothing. */
  lemma {:induction false} AsMapWithout(rows: seq<Row>, id: int)
    ensures AsMap(Without(rows, id)) == AsMap(rows) - {id}
    decreases |rows|
  {
    if rows != [] {
      var n := |rows| - 1;
      var last := rows[n];
      var front := Without(rows[..n], id);
      AsMapWithout(rows[..n], id);
      if last.id == id {
        assert Without(rows, id) == front;
      } else {
        assert Without(rows, id) == front + [last];
        AsMapSnoc(front, last);
      }
      RemoveAfterUpdate(AsMap(rows[..n]), last.id, last.fields, id);
    }
  }

  /** Appending a row sets its id's entry. */
  lemma AsMapSnoc(rows: seq<Row>, r: Row)
    ensures AsMap(rows + [r]) == AsMap(rows)[r.id := r.fields]
  {
    assert (rows + [r])[..|rows|] == rows;
  }

  /** Removing a key after setting it, or before setting another. */
  lemma RemoveAfterUpdate(m: map<int, Fields>, k: int, v: Fields, id: int)
    ensures k == id ==> m[k := v] - {id} == m - {id}
    ensures k != id ==> m[k := v] - {id} == (m - {id})[k := v]
  {
  }

  class UserTable {
    /** The stored rows, in ascending id order. */
    var rows: seq<Row>
    /** The largest id ever issued, 0 before the first insert. */
    var lastId: int
    /** Every id ever issued, including those of deleted rows. */
    ghost var Issued: set<int>

    ghost predicate Valid()
      reads this
    {
      && Ascending(rows)
      && 0 <= lastId
      && (forall i :: 0 <= i < |rows| ==> rows[i].id in Issued)
      && (forall id :: id in Issued ==> 1 <= id <= lastId)
    }

    /** The table's abstract value: id to the row's four columns. */
    ghost function Contents(): map<int, Fields>
      reads this
    {
      AsMap(rows)
    }

    /** `init_db` on a database file that does not yet hold the table. */
    constructor ()
      ensures Valid() && Contents() == map[] && Issued == {}
    {
      rows := [];
      lastId := 0;
      Issued := {};
    }

    /** `simpan_data`: one new row under an id greater than every id issued before. */
    method Insert(f: Fields) returns (id: int)
      requires Valid()
      modifies this
      ensures Valid()
      ensures id !in old(Issued) && forall j :: j in old(Issued) ==> j < id
      ensures Issued == old(Issued) + {id}
      ensures Contents() == old(Contents())[id := f]
    {
      id := lastId + 1;
      rows := rows + [Row(id, f)];
      lastId := id;
      Issued := Issued + {id};
      assert rows[..|rows| - 1] == old(rows);
    }

    /** `ambil_semua_data`: every row, in ascending id order. */
    method SelectAll() returns (result: seq<Row>)
      requires Valid()
      ensures Ascending(result) && AsMap(result) == Contents()
    {
      result := rows;
    }

    /** `update_data`: new fields for that id; no other row changes, and no row at all if the id is absent. */
    method Update(id: int, f: Fields)
      requires Valid()
      modifies this
      ensures Valid() && Issued == old(Issued)
      ensures Contents() == if id in old(Contents()) then old(Contents())[id := f] else old(Contents())
    {
      rows := Replace(rows, id, f);
      AsMapReplace(old(rows), id, f);
    }

    /** `hapus_data`: removes that id and nothing else; the id stays issued. */
    method Delete(id: int)
      requires Valid()
      modifies this
      ensures Valid() && Issued == old(Issued)
      ensures Contents() == old(Contents()) - {id}
    {
      rows := Without(rows, id);
      AsMapWithout(old(rows), id);
    }
  }
}
