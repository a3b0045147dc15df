/** The singly linked queue with head and last pointers that holds buffers to send,
    buffers to process and completion entries. */
module LinkedQueue {
  class Cell<T> {
    const value: T
    var next: Cell?<T>

    constructor (v: T)
      ensures value == v
    {
      value, next := v, null;
    }
  }

  /** The cells are linked in this order from head on, and end with null. */
  ghost predicate Chain<T>(head: Cell?<T>, cells: seq<Cell<T>>)
    reads cells
  {
    if cells == [] then head == null else head == cells[0] && Chain(cells[0].next, cells[1..])
  }

  predicate NoDup<T>(cells: seq<Cell<T>>) {
    forall i, j | 0 <= i < j < |cells| :: cells[i] != cells[j]
  }

  function Values<T>(cells: seq<Cell<T>>): (s: seq<T>)
    ensures |s| == |cells|
  {
    if cells == [] then [] else [cells[0].value] + Values(cells[1..])
  }

  lemma {:induction false} ValuesAppend<T>(cells: seq<Cell<T>>, c: Cell<T>)
    ensures Values(cells + [c]) == Values(cells) + [c.value]
  {
    if cells == [] {
      assert [c][1..] == [];
    } else {
      assert (cells + [c])[1..] == cells[1..] + [c];
      ValuesAppend(cells[1..], c);
    }
  }

  lemma {:induction false} ChainNext<T>(head: Cell?<T>, cells: seq<Cell<T>>, n: nat)
    requires Chain(head, cells) && n < |cells|
    ensures cells[n].next == if n + 1 < |cells| then cells[n + 1] else null
  {
    if n > 0 { ChainNext(cells[0].next, cells[1..], n - 1); }
  }

  /** Cells that lead from one to the next, and from the last to one more. */
  lemma {:induction false} ChainJoin<T>(cells: seq<Cell<T>>, c: Cell<T>)
    requires cells != [] && cells[|cells| - 1].next == c && c.next == null
    requires forall j, l | 0 <= j && l == j + 1 < |cells| :: cells[j].next == cells[l]
    ensures Chain(cells[0], cells + [c])
  {
    if |cells| == 1 {
      assert (cells + [c])[1..] == [c] && [c][1..] == [];
    } else {
      assert cells[0].next == cells[1];
      ChainJoin(cells[1..], c);
      assert (cells + [c])[1..] == cells[1..] + [c];
    }
  }

  class Queue<T> {
    var head: Cell?<T>
    var last: Cell?<T>
    ghost var cells: seq<Cell<T>>

    ghost predicate Valid()
      reads this, cells
    {
      Chain(head, cells) && NoDup(cells) && last == (if cells == [] then null else cells[|cells| - 1])
    }

    ghost function Contents(): (s: seq<T>)
      reads this
      ensures |s| == |cells|
    {
      Values(cells)
    }

    constructor ()
      ensures Valid() && Contents() == [] && cells == []
    {
      head, last, cells := null, null, [];
    }

    /** Links a fresh entry in at the end, or before the head. */
    method Enqueue(c: Cell<T>, addToFront: bool)
      requires Valid() && c !in cells
      modifies this, c, cells
      ensures Valid() && cells == if addToFront then [c] + old(cells) else old(cells) + [c]
      ensures Contents() == if addToFront then [c.value] + old(Contents()) else old(Contents()) + [c.value]
    {
      c.next := null;
      if head != null {
        assert last != null;
        if addToFront {
          AddToFront(c);
        } else {
          AddToBack(c);
        }
      } else {
        head := c;
        last := c;
        cells := [c];
        assert cells[1..] == [];
      }
    }

    method AddToFront(c: Cell<T>)
      requires Valid() && c !in cells && head != null
      modifies this`head, this`cells, c
      ensures Valid() && cells == [c] + old(cells) && Contents() == [c.value] + old(Contents())
    {
      c.next := head;
      head := c;
      cells := [c] + cells;
      assert cells[1..] == old(cells);
    }

    method AddToBack(c: Cell<T>)
      requires Valid() && c !in cells && head != null && c.next == null
      modifies this`last, this`cells, cells
      ensures Valid() && cells == old(cells) + [c] && Contents() == old(Contents()) + [c.value]
    {
      ValuesAppend(cells, c);
      forall j, l | 0 <= j && l == j + 1 < |cells| ensures cells[j].next == cells[l] {
        ChainNext(head, cells, j);
      }
      last.next := c;
      ChainJoin(cells, c);
      last := c;
      cells := cells + [c];
    }

    /** Unlinks the head; when it was the only entry the last pointer goes, too. */
    method Dequeue() returns (c: Cell?<T>)
      requires Valid()
      modifies this
      ensures Valid() && (c == null <==> old(cells) == [])
      ensures c == null ==> cells == []
      ensures c != null ==> old(cells) == [c] + cells && old(Contents()) == [c.value] + Contents()
    {
      c := head;
      if c != null {
        assert Chain(c.next, cells[1..]);
        assert c.next == null ==> cells[1..] == [] && |cells| == 1;
        head := c.next;
        if head == null {
          assert c == last;
          last := null;
        }
        cells := cells[1..];
      }
    }

    /** Takes the whole list over at once, leaving this one empty. */
    method TakeAll() returns (all: Queue<T>)
      requires Valid()
      modifies this
      ensures fresh(all) && all.Valid() && Valid() && Contents() == []
      ensures all.cells == old(cells) && all.Contents() == old(Contents())
    {
      all := new Queue();
      all.head, all.last, all.cells := head, last, cells;
      head, last, cells := null, null, [];
    }
  }
}
