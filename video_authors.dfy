/**
 * The id-to-name lookup cache of video authors: a map built from the
 * `(id, name)` rows of the authors table, filled on first access and
 * replaced wholesale on refresh.  The rows the query returns are a
 * parameter.
 */
module VideoAuthors {
  import opened IdList

  /** One `(id, name)` row of the projection query. */
  datatype Row = Row(id: Usize, name: string)

  /** The map that inserting the rows one after the other, into an empty
      map, leaves behind. */
  function CacheItems(rows: seq<Row>): map<Usize, string>
  {
    if |rows| == 0 then map[]
    else
      var last := rows[|rows| - 1];
      CacheItems(rows[..|rows| - 1])[last.id := last.name]
  }

  /** The ids that occur in the rows. */
  function Ids(rows: seq<Row>): set<Usize>
  {
    set i | 0 <= i < |rows| :: rows[i].id
  }

  /** Exactly the ids of the rows are keys: none is lost, none is added. */
  lemma {:induction false} CacheItemsKeys(rows: seq<Row>)
    ensures CacheItems(rows).Keys == Ids(rows)
  {
    if |rows| > 0 {
      var front := rows[..|rows| - 1];
      CacheItemsKeys(front);
      assert Ids(rows) == Ids(front) + {rows[|rows| - 1].id} by {
        forall x | x in Ids(rows) ensures x in Ids(front) + {rows[|rows| - 1].id} {
          var i :| 0 <= i < |rows| && rows[i].id == x;
          if i < |rows| - 1 {
            assert front[i].id == x;
          }
        }
        forall x | x in Ids(front) ensures x in Ids(rows) {
          var i :| 0 <= i < |front| && front[i].id == x;
          assert rows[i].id == x;
        }
      }
    }
  }

  /** A later row with the same id overwrites an earlier one: the name
      kept for an id is the name of its last row. */
  lemma {:induction false} CacheItemsLastWins(rows: seq<Row>, i: nat)
    requires i < |rows|
    requires forall j :: i < j < |rows| ==> rows[j].id != rows[i].id
    ensures rows[i].id in CacheItems(rows)
    ensures CacheItems(rows)[rows[i].id] == rows[i].name
  {
    if i < |rows| - 1 {
      var front := rows[..|rows| - 1];
      CacheItemsLastWins(front, i);
    }
  }

  /** The map has at most one entry per row. */
  lemma {:induction false} CacheItemsSize(rows: seq<Row>)
    ensures |CacheItems(rows)| <= |rows|
  {
    if |rows| > 0 {
      var front := rows[..|rows| - 1];
      var last := rows[|rows| - 1];
      CacheItemsSize(front);
      var m := CacheItems(front);
      assert m[last.id := last.name].Keys == m.Keys + {last.id};
      assert |m.Keys + {last.id}| <= |m.Keys| + 1;
    }
  }

  /** `get_cache_items`: the loop that inserts every row into a fresh map. */
  method GetCacheItems(rows: seq<Row>) returns (list: map<Usize, string>)
    ensures list == CacheItems(rows)
    ensures list.Keys == Ids(rows)
  {
    list := map[];
    var i := 0;
    while i < |rows|
      invariant 0 <= i <= |rows|
      invariant list == CacheItems(rows[..i])
    {
      assert rows[..i + 1][..i] == rows[..i];
      list := list[rows[i].id := rows[i].name];
      i := i + 1;
    }
    assert rows[..i] == rows;
    CacheItemsKeys(rows);
  }

  /** The process-wide cache, owned by one holder. */
  class VideoAuthorsCache {
    var items: map<Usize, string>

    /** First access: the map is built from the rows present then. */
    constructor (rows: seq<Row>)
      ensures items == CacheItems(rows)
    {
      var list := GetCacheItems(rows);
      items := list;
    }

    /** Replaces the whole map with one built from the current rows; no
        entry of the previous map survives unless the rows hold it. */
    method Refresh(rows: seq<Row>)
      modifies this
      ensures items == CacheItems(rows)
      ensures items.Keys == Ids(rows)
    {
      items := GetCacheItems(rows);
    }
  }
}
