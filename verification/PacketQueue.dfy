/** The packets waiting for ARP: a linked list that grows at its tail and shrinks anywhere. */
module PacketQueues {
  import opened Words
  import opened ForwardingRules

  function Without<T>(s: seq<T>, k: nat): seq<T>
    requires k < |s|
  {
    s[..k] + s[k + 1..]
  }

  lemma WithoutShape<T>(s: seq<T>, k: nat)
    requires k < |s|
    ensures |Without(s, k)| == |s| - 1
    ensures forall i :: 0 <= i < |s| - 1 ==> Without(s, k)[i] == s[if i < k then i else i + 1]
  {
  }

  class PacketNode {
    const packet: array<byte>
    const iface: string
    const forGateway: bool
    var next: PacketNode?

    constructor (packet: array<byte>, iface: string, forGateway: bool)
      ensures this.packet == packet && this.iface == iface && this.forGateway == forGateway && next == null
    {
      this.packet, this.iface, this.forGateway, next := packet, iface, forGateway, null;
    }
  }

  class PacketQueue {
    var head: PacketNode?
    ghost var nodes: seq<PacketNode>

    /** Every node has a packet of its own. */
    ghost predicate Valid()
      reads this, nodes
    {
      && head == At(0)
      && (forall i :: 0 <= i < |nodes| ==> nodes[i].next == At(i + 1))
      && Separate(nodes)
    }

    ghost function At(i: nat): PacketNode?
      reads this
    {
      if i < |nodes| then nodes[i] else null
    }

    ghost function Packets(): set<array<byte>>
      reads this
    {
      set n | n in nodes :: n.packet
    }

    ghost function Items(): (s: seq<Item>)
      reads this, Packets()
      ensures |s| == |nodes|
      ensures forall i :: 0 <= i < |s| ==> s[i] == ItemOf(nodes[i].packet[..], nodes[i])
    {
      seq(|nodes|, i requires 0 <= i < |nodes| reads this, Packets() => ItemOf(nodes[i].packet[..], nodes[i]))
    }

    /** Nodes and packets are the old ones or new. */
    twostate predicate KeepsOrAllocates()
      reads this
    {
      forall p :: 0 <= p < |nodes| ==> nodes[p] in old(nodes) || (fresh(nodes[p]) && fresh(nodes[p].packet))
    }

    twostate predicate PacketsKept()
      reads this
    {
      forall a :: a in Packets() ==> a in old(Packets()) || fresh(a)
    }

    constructor ()
      ensures Valid() && Items() == [] && nodes == []
    {
      head, nodes := null, [];
    }

    lemma NextIs(i: nat)
      requires Valid() && i < |nodes|
      ensures nodes[i].next == At(i + 1)
    {
    }

    /** Copies a packet and links the copy at the tail; only IP packets are queued. */
    method AddPacket(packet: array<byte>, iface: string, forGateway: bool)
      requires Valid()
      modifies this, nodes
      ensures Valid() && KeepsOrAllocates() && old(nodes) <= nodes
      ensures Items() == old(Items()) + if IsIp(packet[..]) then [Item(packet[..], iface, forGateway)] else []
    {
      if packet.Length < 14 || packet[12] != 8 || packet[13] != 0 {
        return;
      }
      hide Valid, At, Items, IsIp, Packets;
      var copy := Copied(packet);
      var node := new PacketNode(copy, iface, forGateway);
      Enqueue(node);
    }

    method Enqueue(node: PacketNode)
      requires Valid() && node.next == null && forall i :: 0 <= i < |nodes| ==> nodes[i].packet != node.packet
      modifies this, nodes
      ensures Valid() && nodes == old(nodes) + [node]
      ensures Items() == old(Items()) + [ItemOf(node.packet[..], node)]
    {
      ghost var n, items := nodes, Items();
      SeparateAppended(n, node);
      hide Valid, At, Items, Packets, Separate;
      Link(node);
      Appended(n, node, items);
    }

    method Copied(packet: array<byte>) returns (copy: array<byte>)
      ensures fresh(copy) && copy[..] == packet[..]
    {
      copy := new byte[packet.Length](i requires 0 <= i < packet.Length reads packet => packet[i]);
    }

    method Link(node: PacketNode)
      requires Valid() && node.next == null && Separate(nodes + [node])
      modifies this, nodes
      ensures Valid() && nodes == old(nodes) + [node]
    {
      ghost var n, all := nodes, nodes + [node];
      LastDiffers(n);
      LastDiffers(all);
      assert all[|n|] == node && forall i :: 0 <= i < |n| ==> all[i] == n[i];
      hide Separate;
      if head == null {
        head := node;
      } else {
        var temp := Tail();
        temp.next := node;
      }
      nodes := all;
      forall i | 0 <= i < |all| ensures all[i].next == At(i + 1) {
        assert i + 1 < |n| ==> n[i].next == n[i + 1];
      }
    }

    method Tail() returns (temp: PacketNode)
      requires Valid() && head != null
      ensures nodes != [] && temp == nodes[|nodes| - 1]
    {
      temp := head;
      ghost var k := 0;
      while temp.next != null
        invariant 0 <= k < |nodes| && temp == nodes[k]
        decreases |nodes| - k
      {
        temp := temp.next;
        k := k + 1;
      }
    }

    lemma Appended(n: seq<PacketNode>, node: PacketNode, items: seq<Item>)
      requires nodes == n + [node] && |items| == |n|
      requires forall i :: 0 <= i < |n| ==> items[i] == ItemOf(n[i].packet[..], n[i])
      ensures Items() == items + [ItemOf(node.packet[..], node)]
      ensures forall p :: 0 <= p < |nodes| ==> nodes[p] == if p < |n| then n[p] else node
    {
    }

    /** Takes out the `k`-th node, given the node before it, and moves on to the one after it. */
    method Unlink(previous: PacketNode?, current: PacketNode, ghost k: nat) returns (next: PacketNode?)
      requires Valid() && k < |nodes| && current == nodes[k] && previous == (if k == 0 then null else nodes[k - 1])
      modifies this, nodes
      ensures Valid() && next == At(k) && nodes == Without(old(nodes), k)
      ensures Items() == Without(old(Items()), k)
      ensures KeepsOrAllocates() && current.packet !in Packets()
    {
      ghost var n, items := nodes, Items();
      assert Separate(n);
      hide Valid, At, Items, Without, Packets, Separate;
      next := Bypass(previous, current, k);
      Dropped(n, k, items);
    }

    method Bypass(previous: PacketNode?, current: PacketNode, ghost k: nat) returns (next: PacketNode?)
      requires Valid() && k < |nodes| && current == nodes[k] && previous == (if k == 0 then null else nodes[k - 1])
      modifies this, nodes
      ensures Valid() && next == At(k) && nodes == Without(old(nodes), k)
    {
      next := current.next;
      ghost var n := nodes;
      SeparateWithout(n, k);
      SeparateDiffer(n);
      WithoutShape(n, k);
      hide Without, Separate;
      if previous == null {
        head := next;
      } else {
        previous.next := next;
      }
      nodes := Without(n, k);
      forall i | 0 <= i < |nodes| ensures nodes[i].next == At(i + 1) {
        assert nodes[i] == n[if i < k then i else i + 1];
      }
    }

    lemma Dropped(n: seq<PacketNode>, k: nat, items: seq<Item>)
      requires k < |n| == |items| && nodes == Without(n, k) && Separate(n)
      requires forall i :: 0 <= i < |n| ==> items[i] == ItemOf(n[i].packet[..], n[i])
      ensures Items() == Without(items, k)
      ensures forall p :: 0 <= p < |nodes| ==> nodes[p] == n[if p < k then p else p + 1]
      ensures n[k].packet !in Packets()
    {
      forall p | 0 <= p < |nodes| ensures Items()[p] == Without(items, k)[p] {
        assert items[if p < k then p else p + 1] == Items()[p];
      }
    }
  }

  /** What node `n` holds when its packet is `p`. */
  function ItemOf(p: seq<byte>, n: PacketNode): Item { Item(p, n.iface, n.forGateway) }

  /** No two nodes share a packet. */
  ghost predicate Separate(n: seq<PacketNode>) {
    forall i, j :: 0 <= i < j < |n| ==> n[i].packet != n[j].packet
  }

  lemma SeparateDiffer(n: seq<PacketNode>)
    requires Separate(n)
    ensures forall i, j :: 0 <= i < j < |n| ==> n[i] != n[j]
  {
  }

  lemma LastDiffers(n: seq<PacketNode>)
    requires Separate(n)
    ensures forall i :: 0 <= i < |n| - 1 ==> n[i] != n[|n| - 1]
  {
    SeparateDiffer(n);
  }

  lemma SeparateWithout(n: seq<PacketNode>, k: nat)
    requires Separate(n) && k < |n|
    ensures Separate(Without(n, k))
  {
    WithoutShape(n, k);
  }

  lemma SeparateAppended(n: seq<PacketNode>, node: PacketNode)
    requires Separate(n) && forall i :: 0 <= i < |n| ==> n[i].packet != node.packet
    ensures Separate(n + [node])
  {
  }
}
