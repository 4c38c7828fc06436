/**
 * The relational store behind `execute_query` (FakeAPI.py:19-23), reduced to
 * the statements the handlers issue: INSERT, SELECT by id, SELECT all,
 * UPDATE by id and DELETE by id on one table.
 */
module Storage {
  import opened Wrappers

  /** A row with its id, as a SELECT returns it. */
  datatype Entry<R> = Entry(id: int, record: R)

  /**
   * The id SQLite gives a row inserted without one into a table whose key is
   * `INTEGER PRIMARY KEY`: one more than the largest id present, or 1 in an
   * empty table.
   */
  ghost predicate FreshRowId<R>(rows: map<int, R>, id: int)
  {
    && (forall k :: k in rows ==> k < id)
    && (rows == map[] ==> id == 1)
    && (rows != map[] ==> id - 1 in rows)
  }

  /** The rowid rule names exactly one id for every table. */
  lemma FreshRowIdUnique<R>(rows: map<int, R>, a: int, b: int)
    requires FreshRowId(rows, a) && FreshRowId(rows, b)
    ensures a == b
  {
  }

  /** A non-empty set has a member to pick. */
  lemma NonEmptyHasMember(s: set<int>)
    requires s != {}
    ensures exists x :: x in s
  {
    if forall x :: x !in s {
      assert false;
    }
  }

  /** The smallest id of a non-empty set of ids. */
  method Least(ids: set<int>) returns (m: int)
    requires ids != {}
    ensures m in ids
    ensures forall k :: k in ids ==> m <= k
  {
    NonEmptyHasMember(ids);
    m :| m in ids;
    var unseen := ids - {m};
    while unseen != {}
      invariant unseen <= ids
      invariant m in ids
      invariant forall k :: k in ids && k !in unseen ==> m <= k
      decreases unseen
    {
      NonEmptyHasMember(unseen);
      var k :| k in unseen;
      if k < m {
        m := k;
      }
      unseen := unseen - {k};
    }
  }

  /** One table: rows keyed by their id. */
  class Table<R> {
    var rows: map<int, R>

    /** Ids handed out by the store are positive. */
    ghost predicate Valid()
      reads this
    {
      forall id :: id in rows ==> id >= 1
    }

    constructor ()
      ensures Valid() && rows == map[]
    {
      rows := map[];
    }

    /** The id the next INSERT receives. */
    method NextRowId() returns (id: int)
      requires Valid()
      ensures id >= 1 && id !in rows
      ensures FreshRowId(rows, id)
    {
      var largest := 0;
      var unseen := rows.Keys;
      while unseen != {}
        invariant unseen <= rows.Keys
        invariant largest == 0 || largest in rows
        invariant largest >= 0
        invariant forall k :: k in rows && k !in unseen ==> k <= largest
        decreases unseen
      {
        NonEmptyHasMember(unseen);
        var k :| k in unseen;
        if k > largest {
          largest := k;
        }
        unseen := unseen - {k};
      }
      id := largest + 1;
    }

    /** `INSERT INTO t (...) VALUES (...)`: the row is stored under a fresh id. */
    method Insert(r: R) returns (id: int)
      requires Valid()
      modifies this
      ensures Valid()
      ensures id !in old(rows) && FreshRowId(old(rows), id)
      ensures rows == old(rows)[id := r]
    {
      id := NextRowId();
      rows := rows[id := r];
    }

    /** `SELECT * FROM t WHERE id = ?`. */
    method Select(id: int) returns (row: Option<R>)
      ensures id in rows ==> row == Some(rows[id])
      ensures id !in rows ==> row == None
    {
      if id in rows {
        row := Some(rows[id]);
      } else {
        row := None;
      }
    }

    /** `UPDATE t SET ... WHERE id = ?`: rewrites the row with that id, if any. */
    method Update(id: int, r: R)
      modifies this
      ensures id in old(rows) ==> rows == old(rows)[id := r]
      ensures id !in old(rows) ==> rows == old(rows)
    {
      if id in rows {
        rows := rows[id := r];
      }
    }

    /** `DELETE FROM t WHERE id = ?`. */
    method Delete(id: int)
      modifies this
      ensures rows == old(rows) - {id}
    {
      rows := rows - {id};
    }

    /** `SELECT * FROM t`: every row exactly once; the model fixes the order to increasing rowid. */
    method SelectAll() returns (es: seq<Entry<R>>)
      ensures forall k :: 0 <= k < |es| ==> es[k].id in rows && es[k].record == rows[es[k].id]
      ensures forall j, k :: 0 <= j < k < |es| ==> es[j].id < es[k].id
      ensures forall id :: id in rows ==> exists k :: 0 <= k < |es| && es[k].id == id
    {
      es := [];
      var left := rows.Keys;
      while left != {}
        invariant left <= rows.Keys
        invariant forall k :: 0 <= k < |es| ==> es[k].id in rows && es[k].id !in left && es[k].record == rows[es[k].id]
        invariant forall j, k :: 0 <= j < k < |es| ==> es[j].id < es[k].id
        invariant forall k, id :: 0 <= k < |es| && id in left ==> es[k].id < id
        invariant forall id :: id in rows && id !in left ==> exists k :: 0 <= k < |es| && es[k].id == id
        decreases left
      {
        var m := Least(left);
        ghost var before := es;
        es := es + [Entry(m, rows[m])];
        assert forall k :: 0 <= k < |before| ==> es[k] == before[k];
        assert es[|before|] == Entry(m, rows[m]);
        left := left - {m};
        forall id | id in rows && id !in left
          ensures exists k :: 0 <= k < |es| && es[k].id == id
        {
          if id == m {
            assert es[|es| - 1].id == id;
          } else {
            var k :| 0 <= k < |before| && before[k].id == id;
            assert es[k].id == id;
          }
        }
      }
    }
  }
}
