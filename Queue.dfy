/**
 * The command queue: a doubly linked list of commands (tcode_buffer_t,
 * src/tcode_buffer.h:12-26) and the operations of src/tcode_buffer.c.
 * The nodes and their `first`/`last`/`next`/`prev` links are represented by
 * the sequence of commands they hold, in `next` order.
 */
module Queue {
  import opened Types

  /**
   * The walk at the top of tcode_buffer_remove_idx, which follows `next`
   * while a node remains and `idx` (tested, then decremented) is not 0, started at position
   * `pos` of a list of `len` nodes: the node it stops on (`len` stands for
   * NULL) and the value left in `idx`. The post-decrement runs whenever
   * `node != NULL`, including the test that ends the loop.
   */
  function Walk(len: nat, pos: nat, idx: uint64): (w: (nat, uint64))
    requires pos <= len
    ensures pos <= w.0 <= len
    ensures w.0 < len ==> w.1 == MaxUint64
    decreases len - pos
  {
    if pos == len then (pos, idx)
    else if idx == 0 then (pos, Decr(idx))
    else Walk(len, pos + 1, Decr(idx))
  }

  /**
   * Where the walk stops: on node `pos + idx` with `idx` wrapped to SIZE_MAX
   * when that node exists, otherwise on NULL.
   */
  lemma {:induction false} WalkStops(len: nat, pos: nat, idx: uint64)
    requires pos <= len
    ensures Walk(len, pos, idx).0 == if pos + idx as int < len then pos + idx as int else len
    ensures pos + idx as int < len ==> Walk(len, pos, idx).1 == MaxUint64
    ensures pos + idx as int >= len ==> Walk(len, pos, idx).1 as int == pos + idx as int - len
    decreases len - pos
  {
    if pos < len && idx != 0 {
      WalkStops(len, pos + 1, Decr(idx));
    }
  }

  /** So the early-return guard `idx != 0 || node == NULL` holds for every list and every index. */
  lemma RemoveIdxReturnsEarly(len: nat, idx: uint64)
    ensures Walk(len, 0, idx).1 != 0 || Walk(len, 0, idx).0 == len
  {
    WalkStops(len, 0, idx);
  }

  /** tcode_buffer_t, holding the commands from `first` to `last`. */
  class CommandQueue {
    var items: seq<Command>

    /** TCODE_BUFFER_DEFAULT: `first == last == NULL`. */
    constructor ()
      ensures items == []
    {
      items := [];
    }

    /**
     * tcode_buffer_remove_idx. The walk always ends on NULL or with `idx`
     * wrapped past zero, so the guard returns before anything is unlinked.
     */
    method RemoveIdx(idx: uint64)
      modifies this
      ensures items == old(items)
    {
      var node: nat := 0;
      var i := idx;
      while node < |items|
        invariant node <= |items|
        invariant Walk(|items|, node, i) == Walk(|items|, 0, idx)
        decreases |items| - node
      {
        var tested := i;
        i := Decr(i);
        if tested == 0 {
          break;
        }
        node := node + 1;
      }
      assert (node, i) == Walk(|items|, 0, idx);
      RemoveIdxReturnsEarly(|items|, idx);
      if i != 0 || node == |items| {
        return;
      }
      assert false;
    }

    /**
     * The unlinking at src/tcode_buffer.c:14-30, which RemoveIdx never
     * reaches: the node at `pos` leaves the list and the others keep their order.
     */
    method UnlinkAt(pos: nat)
      requires pos < |items|
      modifies this
      ensures items == old(items[..pos] + items[pos + 1..])
      ensures |items| == |old(items)| - 1
    {
      items := items[..pos] + items[pos + 1..];
    }

    /**
     * tcode_buffer_remove_duplicate: for every entry with the command's type
     * and channel it calls RemoveIdx, so the list stays as it was. A NULL
     * command is `None`.
     */
    method RemoveDuplicate(command: Option<Command>)
      modifies this
      ensures items == old(items)
    {
      var node := 0;
      var idx: uint64 := 0;
      while node < |items| && command.Some?
        invariant node <= |items| && items == old(items)
        decreases |items| - node
      {
        var c := items[node];
        node := node + 1;
        if c.kind == command.value.kind && c.channel == command.value.channel {
          RemoveIdx(idx);
        }
        idx := Incr(idx);
      }
    }

    /** tcode_buffer_enqueue: the command becomes the new last entry and is returned. */
    method Enqueue(command: Command) returns (r: Command)
      modifies this
      ensures items == old(items) + [command]
      ensures r == command
    {
      RemoveDuplicate(Some(command));
      items := items + [command];
      r := items[|items| - 1];
    }

    /** tcode_buffer_copy: every entry of `src`, in order, is enqueued here. */
    method Copy(src: CommandQueue)
      requires src != this
      modifies this
      ensures items == old(items) + src.items
    {
      var node := 0;
      while node < |src.items|
        invariant node <= |src.items|
        invariant items == old(items) + src.items[..node]
      {
        var _ := Enqueue(src.items[node]);
        assert src.items[..node + 1] == src.items[..node] + [src.items[node]];
        node := node + 1;
      }
      assert src.items[..node] == src.items;
    }

    /** tcode_buffer_empty: every node is released and `first == last == NULL`. */
    method Empty()
      modifies this
      ensures items == []
    {
      items := [];
    }

    /**
     * tcode_buffer_foreach: calls the visitor on each entry in list order with
     * indices 0, 1, ...; the visitor may rewrite the entry it is given, so it
     * is a function from (index, entry) to the new entry. The visits made are
     * returned in order.
     */
    method Foreach(fn: (nat, Command) -> Command) returns (visits: seq<(nat, Command)>)
      modifies this
      ensures |items| == |old(items)| == |visits|
      ensures forall i :: 0 <= i < |items| ==> items[i] == fn(i, old(items)[i])
      ensures forall i :: 0 <= i < |visits| ==> visits[i] == (i, old(items)[i])
    {
      var node := 0;
      visits := [];
      while node < |items|
        invariant node <= |items| == |old(items)| && |visits| == node
        invariant forall i :: 0 <= i < node ==> items[i] == fn(i, old(items)[i])
        invariant forall i :: node <= i < |items| ==> items[i] == old(items)[i]
        invariant forall i :: 0 <= i < node ==> visits[i] == (i, old(items)[i])
      {
        visits := visits + [(node, items[node])];
        items := items[node := fn(node, items[node])];
        node := node + 1;
      }
    }
  }
}
