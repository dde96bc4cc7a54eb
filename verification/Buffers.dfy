/**
 The two buffers Bitv works on: RevBuffer, which is filled from its end towards its front, and
 DcQueueList, which hands out the bytes of a list of memory nodes as if they were one piece.
*/
module Buffers {
  import opened Wrappers
  import opened Bytes

  class RevBuffer {
    /** The bytes put so far, in the order they will be read. */
    var data: Bytes

    constructor ()
      ensures data == []
    {
      data := [];
    }

    /** AllocPrefix, fill backwards, SetPrefixUsed. */
    method Put(bs: Bytes)
      modifies this
      ensures data == bs + old(data)
    {
      data := bs + data;
    }
  }

  function Flatten(nodes: seq<Bytes>): Bytes {
    if nodes == [] then [] else nodes[0] + Flatten(nodes[1..])
  }

  /** The nodes of two lists one behind the other hold the bytes of the first and then those of the second. */
  lemma {:induction false} FlattenAppend(a: seq<Bytes>, b: seq<Bytes>)
    ensures Flatten(a + b) == Flatten(a) + Flatten(b)
    ensures forall node: Bytes :: Flatten([node]) == node
  {
    forall node: Bytes
      ensures Flatten([node]) == node
    {
      assert [node][1..] == [];
      AppendNothing(node);
    }
    if a == [] {
      assert a + b == b;
    } else {
      assert (a + b)[1..] == a[1..] + b;
      FlattenAppend(a[1..], b);
      AppendAssoc(a[0], Flatten(a[1..]), Flatten(b));
    }
  }

  class DcQueue {
    /** The unread bytes of the current node, and the nodes after it; a later node may be empty. */
    var cur: Bytes
    var nodes: seq<Bytes>

    predicate Valid()
      reads this
    {
      cur == [] ==> nodes == []
    }

    function Contents(): Bytes
      reads this
    {
      cur + Flatten(nodes)
    }

    /** DcQueueList over a list of nodes: empty nodes in front are dropped (FrontToCurrBlock). */
    constructor (list: seq<Bytes>)
      ensures Valid() && Contents() == Flatten(list)
    {
      var rest := list;
      while rest != [] && rest[0] == []
        invariant Flatten(rest) == Flatten(list)
      {
        rest := rest[1..];
      }
      cur := if rest == [] then [] else rest[0];
      nodes := if rest == [] then [] else rest[1..];
    }

    method Peek1() returns (b: Option<Byte>)
      requires Valid()
      ensures b == if Contents() == [] then None else Some(Contents()[0])
    {
      b := if cur == [] then None else Some(cur[0]);
    }

    /** The first sz bytes without taking them, or None when there are fewer. */
    method Peek(sz: nat) returns (p: Option<Bytes>)
      requires Valid()
      ensures p == if sz <= |Contents()| then Some(Contents()[..sz]) else None
    {
      if sz <= |cur| {
        assert Contents()[..sz] == cur[..sz];
        return Some(cur[..sz]);
      }
      var tmp := cur;
      var i := 0;
      while i < |nodes|
        invariant i <= |nodes| && |tmp| < sz
        invariant tmp + Flatten(nodes[i..]) == Contents()
      {
        var need := sz - |tmp|;
        var take := if need < |nodes[i]| then need else |nodes[i]|;
        AppendAssoc(tmp, nodes[i], Flatten(nodes[i + 1..]));
        if take == need {
          p := Some(tmp + nodes[i][..take]);
          assert tmp + nodes[i][..take] == (tmp + (nodes[i] + Flatten(nodes[i + 1..])))[..sz];
          return;
        }
        tmp := tmp + nodes[i];
        i := i + 1;
      }
      return None;
    }

    method IsSizeEnough(sz: nat) returns (enough: bool)
      requires Valid()
      ensures enough == (sz <= |Contents()|)
    {
      if sz <= |cur| {
        return true;
      }
      var size, i := |cur|, 0;
      while i < |nodes|
        invariant i <= |nodes| && size < sz
        invariant size + |Flatten(nodes[i..])| == |Contents()|
      {
        size := size + |nodes[i]|;
        if size >= sz {
          return true;
        }
        i := i + 1;
      }
      return false;
    }

    /** Take sz bytes away. */
    method PopConsumed(sz: nat)
      requires Valid() && sz <= |Contents()|
      modifies this
      ensures Valid() && Contents() == old(Contents())[sz..]
    {
      ghost var was := Contents();
      if sz < |cur| {
        cur := cur[sz..];
        assert Contents() == was[sz..];
        return;
      }
      var more: nat := sz - |cur|;
      assert Flatten(nodes)[more..] == was[sz..];
      while nodes != []
        invariant more <= |Flatten(nodes)|
        invariant Flatten(nodes)[more..] == was[sz..]
      {
        var node := nodes[0];
        nodes := nodes[1..];
        if more < |node| {
          cur := node[more..];
          assert Contents() == (node + Flatten(nodes))[more..];
          return;
        }
        more := more - |node|;
      }
      cur := [];
    }

    /** Take up to sz bytes into the caller's memory: as many as there are. */
    method Read(sz: nat) returns (bs: Bytes)
      requires Valid()
      modifies this
      ensures Valid() && bs + Contents() == old(Contents())
      ensures if sz <= |old(Contents())| then |bs| == sz else Contents() == []
    {
      if sz <= |cur| {
        bs := cur[..sz];
        ghost var was := Contents();
        assert was[..sz] == bs && was == was[..sz] + was[sz..];
        PopConsumed(sz);
      } else if cur == [] {
        bs := [];
      } else {
        bs := cur;
        var more := ReadMore(sz - |cur|);
        AppendAssoc(bs, more, Contents());
        bs := bs + more;
      }
    }

    /** DcQueueReadMore: the current node is used up; take up to sz bytes of the ones behind it. */
    method ReadMore(sz: nat) returns (bs: Bytes)
      requires sz > 0
      modifies this
      ensures Valid() && bs + Contents() == old(Flatten(nodes))
      ensures if sz <= |old(Flatten(nodes))| then |bs| == sz else Contents() == []
    {
      ghost var was := Flatten(nodes);
      var left: nat := sz;
      bs := [];
      while nodes != []
        invariant was == bs + Flatten(nodes) && |bs| + left == sz
      {
        var node := nodes[0];
        nodes := nodes[1..];
        if left < |node| {
          AppendAssoc(bs, node[..left], node[left..] + Flatten(nodes));
          AppendAssoc(node[..left], node[left..], Flatten(nodes));
          assert node[..left] + node[left..] == node;
          bs := bs + node[..left];
          cur := node[left..];
          return;
        }
        AppendAssoc(bs, node, Flatten(nodes));
        bs, left := bs + node, left - |node|;
      }
      AppendNothing(bs);
      cur := [];
    }
  }
}
