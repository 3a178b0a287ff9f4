/** The linked work queue (iot_util.c). */
module WorkQueue {
  import opened Bytes

  datatype Status = Ok | InvalidArgs | BadReq | Timeout

  /** iot_util_queue_data_t */
  class Node {
    const data: array<byte>
    var next: Node?

    constructor (data: array<byte>)
      ensures this.data == data && next == null
    {
      this.data, next := data, null;
    }
  }

  /** iot_util_queue_t. The nodes from head to tail, in order, are kept in a ghost sequence. */
  class Queue {
    const itemSize: nat
    var head: Node?
    var tail: Node?
    ghost var nodes: seq<Node>
    ghost var Repr: set<object>

    /** Head and tail are both null or delimit the distinct nodes, linked in order. */
    ghost predicate Linked()
      reads this`head, this`tail, this`nodes, nodes
    {
      && (forall i, j :: 0 <= i < j < |nodes| ==> nodes[i] != nodes[j])
      && (forall i {:trigger nodes[i]} :: 0 <= i < |nodes| - 1 ==> nodes[i].next == nodes[i + 1])
      && (nodes != [] ==> nodes[|nodes| - 1].next == null)
      && (nodes == [] ==> head == null && tail == null)
      && (nodes != [] ==> head == nodes[0] && tail == nodes[|nodes| - 1])
    }

    ghost predicate Valid()
      reads this, Repr
    {
      && this in Repr && Owned() && Linked()
    }

    ghost predicate Owned()
      reads this
    {
      forall n <- nodes :: n in Repr && n.data in Repr && n.data.Length == itemSize
    }

    /** The queued items, oldest first. */
    ghost function Contents(): (s: seq<seq<byte>>)
      requires Valid()
      reads this, Repr
      ensures |s| == |nodes| && forall i :: 0 <= i < |nodes| ==> s[i] == nodes[i].data[..]
    {
      Items(nodes)
    }

    static ghost function Items(nodes: seq<Node>): (s: seq<seq<byte>>)
      reads set n | n in nodes :: n.data
      ensures |s| == |nodes| && forall i :: 0 <= i < |nodes| ==> s[i] == nodes[i].data[..]
    {
      if nodes == [] then [] else [nodes[0].data[..]] + Items(nodes[1..])
    }

    /** iot_util_queue_create */
    constructor (itemSize: nat)
      ensures Valid() && fresh(Repr) && Contents() == [] && this.itemSize == itemSize
    {
      this.itemSize, head, tail := itemSize, null, null;
      nodes, Repr := [], {this};
    }

    /** iot_util_queue_send: append a copy of the item. locked tells whether the mutex was taken. */
    method Send(data: array?<byte>, locked: bool) returns (err: Status)
      requires Valid() && (data != null ==> itemSize <= data.Length)
      modifies Repr
      ensures Valid() && fresh(Repr - old(Repr)) && old(Repr) <= Repr
      ensures data == null ==> err == InvalidArgs
      ensures data != null ==> err == if locked then Ok else Timeout
      ensures Contents() == if err == Ok then old(Contents()) + [old(data[..itemSize])] else old(Contents())
    {
      hide Queue.Linked, Queue.Items;
      if data == null {
        return InvalidArgs;
      }
      var node := Copied(data);
      if !locked {
        return Timeout;
      }
      Link(node);
      err := Ok;
    }

    method Link(node: Node)
      requires Valid() && node !in Repr && node.next == null && node.data.Length == itemSize
      modifies Repr
      ensures Valid() && Repr == old(Repr) + {node, node.data}
      ensures Contents() == old(Contents()) + [node.data[..]]
    {
      hide Queue.Linked, Queue.Items;
      ghost var was := nodes;
      ghost var items := Items(was);
      Append(node);
      Repr := Repr + {node, node.data};
      AppendItem(was, node);
      assert Items(was) == items && Contents() == items + [node.data[..]];
    }

    /** A new node with a copy of the item. */
    method Copied(data: array<byte>) returns (node: Node)
      requires itemSize <= data.Length
      ensures fresh(node) && fresh(node.data) && node.next == null && node.data[..] == data[..itemSize]
    {
      var copy := new byte[itemSize];
      forall k | 0 <= k < itemSize {
        copy[k] := data[k];
      }
      assert copy[..] == data[..itemSize];
      node := new Node(copy);
    }

    static lemma AppendItem(ns: seq<Node>, node: Node)
      ensures Items(ns + [node]) == Items(ns) + [node.data[..]]
    {
    }

    static lemma FirstItem(node: Node, ns: seq<Node>)
      ensures Items([node] + ns) == [node.data[..]] + Items(ns)
    {
      assert ([node] + ns)[1..] == ns;
    }

    /** The part of iot_util_queue_send under the lock. */
    method Append(node: Node)
      requires Linked() && node !in nodes && node.next == null
      modifies this`head, this`tail, this`nodes, nodes
      ensures Linked() && nodes == old(nodes) + [node]
    {
      if head == null || tail == null {
        head, tail := node, node;
      } else {
        tail.next := node;
        tail := node;
      }
      nodes := nodes + [node];
    }

    /** The part of iot_util_queue_receive under the lock. */
    method Unlink() returns (node: Node?)
      requires Linked()
      modifies this`head, this`tail, this`nodes, nodes
      ensures Linked()
      ensures if old(nodes) == [] then node == null && nodes == [] else node != null && [node] + nodes == old(nodes)
    {
      node := null;
      if head == null || tail == null {
      } else if head == tail {
        node := head;
        head, tail := null, null;
        nodes := [];
      } else {
        node := head;
        head := head.next;
        node.next := null;
        ghost var all := nodes;
        nodes := nodes[1..];
        assert forall i :: 0 <= i < |nodes| ==> nodes[i] == all[i + 1] && nodes[i] != node;
      }
    }

    /** iot_util_queue_receive: remove the first item and copy it out. */
    method Receive(data: array?<byte>, locked: bool) returns (err: Status)
      requires Valid() && (data != null ==> itemSize <= data.Length && data !in Repr)
      modifies Repr, data
      ensures Valid() && Repr == old(Repr)
      ensures data == null ==> err == InvalidArgs
      ensures data != null ==> err == if !locked then Timeout else if |old(Contents())| == 0 then BadReq else Ok
      ensures err == Ok ==> old(Contents()) == [data[..itemSize]] + Contents()
                            && data[itemSize..] == old(data[itemSize..])
      ensures err != Ok ==> Contents() == old(Contents()) && (data != null ==> data[..] == old(data[..]))
    {
      hide Queue.Linked, Queue.Items;
      if data == null {
        return InvalidArgs;
      }
      if !locked {
        return Timeout;
      }
      err := Ok;
      ghost var was := nodes;
      var node := Unlink();
      if node == null {
        err := BadReq;
        assert |was| == 0;
      } else {
        assert |was| == 1 + |nodes|;
        FirstItem(node, nodes);
        CopyOut(node, data);
      }
    }

    method CopyOut(node: Node, data: array<byte>)
      requires node.data.Length == itemSize <= data.Length && node.data != data
      modifies data
      ensures data[..itemSize] == node.data[..] && data[itemSize..] == old(data[itemSize..])
    {
      forall k | 0 <= k < itemSize {
        data[k] := node.data[k];
      }
    }

    /** iot_util_queue_delete visits every node once, in order, and leaves nothing linked. */
    method Delete() returns (freed: seq<Node>)
      requires Valid()
      modifies this
      ensures Valid() && Contents() == [] && freed == old(nodes)
    {
      var node := head;
      freed := [];
      while node != null
        invariant |freed| <= |nodes| && freed == nodes[..|freed|]
        invariant node == if |freed| < |nodes| then nodes[|freed|] else null
        decreases |nodes| - |freed|
      {
        assert node == nodes[|freed|];
        freed := freed + [node];
        node := node.next;
      }
      head, tail := null, null;
      nodes := [];
    }
  }
}
