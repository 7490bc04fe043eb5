/** The `orders` table, held in memory: the rows in insertion order and the
    AUTOINCREMENT counter that numbers them. `save_order` appends a row,
    `update_order` rewrites the status of every row of one user. */
module Orders {

  datatype Status = Pending | Approved | Rejected

  /** One row of `orders` (the `created_at` timestamp is not modelled). */
  datatype Order = Order(id: int, userId: int, username: string, utr: string, status: Status)

  /** Ids strictly increase in insertion order, so no id appears twice. */
  predicate IdsIncreasing(rows: seq<Order>) {
    forall i, j :: 0 <= i < j < |rows| ==> rows[i].id < rows[j].id
  }

  /** Every id is below `bound`. */
  predicate IdsBelow(rows: seq<Order>, bound: int) {
    forall i :: 0 <= i < |rows| ==> rows[i].id < bound
  }

  /** `o` with status `status` when it belongs to `userId`, `o` itself otherwise. */
  function SetIfOwner(o: Order, userId: int, status: Status): Order {
    if o.userId == userId then o.(status := status) else o
  }

  /** The rows after `UPDATE orders SET status=? WHERE user_id=?`: every row
      of `userId` takes the new status whatever its old one; no other row and
      no other column changes. */
  function WithStatus(rows: seq<Order>, userId: int, status: Status): (r: seq<Order>)
    ensures |r| == |rows|
    ensures forall i :: 0 <= i < |rows| ==>
      && r[i].id == rows[i].id && r[i].userId == rows[i].userId
      && r[i].username == rows[i].username && r[i].utr == rows[i].utr
    ensures forall i :: 0 <= i < |rows| ==>
      r[i].status == if rows[i].userId == userId then status else rows[i].status
  {
    if rows == [] then []
    else [SetIfOwner(rows[0], userId, status)] + WithStatus(rows[1..], userId, status)
  }

  /** A user without rows is not affected: the UPDATE matches nothing. */
  lemma WithStatusNoMatch(rows: seq<Order>, userId: int, status: Status)
    requires forall i :: 0 <= i < |rows| ==> rows[i].userId != userId
    ensures WithStatus(rows, userId, status) == rows
  {
    var r := WithStatus(rows, userId, status);
    assert forall i :: 0 <= i < |rows| ==> r[i] == rows[i];
  }

  /** The last update of a user wins: nothing guards a decided order, so a
      later status overwrites an earlier one, APPROVED over REJECTED and the
      other way round. */
  lemma WithStatusLastWins(rows: seq<Order>, userId: int, first: Status, second: Status)
    ensures WithStatus(WithStatus(rows, userId, first), userId, second) == WithStatus(rows, userId, second)
  {
    var a := WithStatus(WithStatus(rows, userId, first), userId, second);
    var b := WithStatus(rows, userId, second);
    assert forall i :: 0 <= i < |rows| ==> a[i] == b[i];
  }

  /** Updates of two different users do not interfere. */
  lemma WithStatusCommutes(rows: seq<Order>, u1: int, s1: Status, u2: int, s2: Status)
    requires u1 != u2
    ensures WithStatus(WithStatus(rows, u1, s1), u2, s2) == WithStatus(WithStatus(rows, u2, s2), u1, s1)
  {
    var a := WithStatus(WithStatus(rows, u1, s1), u2, s2);
    var b := WithStatus(WithStatus(rows, u2, s2), u1, s1);
    assert forall i :: 0 <= i < |rows| ==> a[i] == b[i];
  }

  /** The in-memory `orders` table. */
  class OrderTable {
    /** The rows, oldest first. */
    var rows: seq<Order>
    /** The id AUTOINCREMENT hands out next: one more than any id ever used. */
    var nextId: int

    ghost predicate Valid()
      reads this
    {
      1 <= nextId && IdsIncreasing(rows) && IdsBelow(rows, nextId)
    }

    /** A fresh, empty table (`CREATE TABLE`); AUTOINCREMENT starts at 1. */
    constructor ()
      ensures Valid()
      ensures rows == [] && nextId == 1
    {
      rows := [];
      nextId := 1;
    }

    /** `save_order`: `INSERT INTO orders (user_id, username, utr)`. The row
        gets the next id, which is above every id already present, and the
        default status PENDING; nothing is checked against existing rows, so
        a repeated UTR is stored again. */
    method Save(userId: int, username: string, utr: string)
      requires Valid()
      modifies this
      ensures Valid()
      ensures rows == old(rows) + [Order(old(nextId), userId, username, utr, Pending)]
      ensures nextId == old(nextId) + 1
      ensures forall i :: 0 <= i < |old(rows)| ==> old(rows)[i].id < rows[|rows| - 1].id
    {
      rows := rows + [Order(nextId, userId, username, utr, Pending)];
      nextId := nextId + 1;
    }

    /** `update_order`: `UPDATE orders SET status=? WHERE user_id=?`. */
    method Update(userId: int, status: Status)
      requires Valid()
      modifies this
      ensures Valid()
      ensures rows == WithStatus(old(rows), userId, status)
      ensures nextId == old(nextId)
    {
      rows := WithStatus(rows, userId, status);
    }
  }
}
