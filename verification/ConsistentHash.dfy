// The consistent hash of src/libconhash/conhash.c and conhash_inter.c: a red-black
// tree of virtual nodes over any hash function.
module ConsistentHash {
  import opened Common
  import opened TreeShape
  import opened TreeOrder
  import opened RbMemory
  import opened RbTree
  import opened HashRing
  import opened ReplicaNames

  // struct node_s: the two flag bits are two fields.
  class ServerNode {
    const iden: string
    const replicas: nat
    var flagInit: bool
    var flagIn: bool

    constructor (iden: string, replicas: nat)
      ensures this.iden == iden && this.replicas == replicas && flagInit && !flagIn
    {
      this.iden, this.replicas := iden, replicas;
      flagInit, flagIn := true, false;
    }
  }

  datatype VirtualNode = VirtualNode(hash: int, node: ServerNode)

  // The nodes of the tree are exactly one virtual node for every key of the ring, and
  // `place` says which.
  ghost predicate Labels(nodes: set<Ref>, key: map<Ref, int>, data: map<Ref, VirtualNode>, ring: map<int, ServerNode>,
      place: map<int, Ref>) {
    && (forall n :: n in nodes ==> n in key && n in data)
    && (forall n :: n in nodes ==> key[n] in ring && data[n] == VirtualNode(key[n], ring[key[n]]))
    && (forall n :: n in nodes ==> key[n] in place && place[key[n]] == n)
    && (forall k :: k in ring ==> k in place && place[k] in nodes && key[place[k]] == k)
  }

  lemma LabelsAdd(nodes: set<Ref>, key: map<Ref, int>, data: map<Ref, VirtualNode>, ring: map<int, ServerNode>,
      place: map<int, Ref>,
                  n: Ref, k: int, v: ServerNode)
    requires Labels(nodes, key, data, ring, place) && n !in nodes && k !in ring
    ensures Labels(nodes + {n}, key[n := k], data[n := VirtualNode(k, v)], ring[k := v], place[k := n])
  {
  }

  lemma LabelsRemove(nodes: set<Ref>, key: map<Ref, int>, data: map<Ref, VirtualNode>, ring: map<int, ServerNode>,
      place: map<int, Ref>, n: Ref)
    requires Labels(nodes, key, data, ring, place) && n in nodes
    ensures Labels(nodes - {n}, key, data, ring - {key[n]}, place)
  {
  }

  class ConHash {
    const tree: Tree
    var ivnodes: int
    // the data field of the tree nodes
    var data: map<Ref, VirtualNode>
    // the addresses that malloc has handed out and not got back
    var live: set<Ref>
    // the hash function of the caller
    const hash: string -> int
    // malloc does not hand out the address to which the parent field of the root leads
    const careful: bool

    ghost var ring: map<int, ServerNode>
    ghost var place: map<int, Ref>

    // The tree, its nodes and the ring belong together.
    ghost predicate Labelled()
      reads this`live, this`data, this`ring, this`place, tree
    {
      Grown() && Labels(Nodes(tree.t), tree.key, data, ring, place)
    }

    ghost predicate Grown()
      reads this`live, tree
    {
      tree.Sound() && live == Nodes(tree.t) && (careful ==> tree.Valid())
    }

    // The root is its own parent, or its parent field leads to freed memory that is red:
    // an insertion may go wrong, or reads what it should not.
    predicate Upset()
      reads this`live, tree
    {
      tree.root != tree.nil && tree.root in tree.mem
      && var above := tree.mem[tree.root].parent;
      above == tree.root || (above !in live && (above in tree.mem ==> tree.mem[above].red))
    }

    lemma NotUpset(node: Ref)
      requires Grown()
      ensures careful ==> !Upset()
      ensures !Upset() ==> tree.Ready(node) && !tree.LeadsTo(tree.root)
    {
      tree.RootParent();
    }

    ghost predicate Valid()
      reads this, tree
    {
      Labelled() && ivnodes == |Inorder(tree.t)| % UINT_RANGE
    }

    constructor (hash: string -> int, careful: bool)
      ensures Valid() && ring == map[] && fresh(tree) && this.hash == hash && this.careful == careful
    {
      this.careful := careful;
      tree := new Tree(1);
      ivnodes := 0;
      data := map[];
      live := {};
      ring, place := map[], map[];
      this.hash := hash;
    }

    // Any address that is not in use, also one that was freed before, with anything in
    // its cell.
    method Malloc() returns (n: Ref, cell: Cell)
      requires Grown()
      ensures n != NULL && n != tree.nil && n !in live && (careful ==> !tree.LeadsTo(n))
    {
      ghost var bound := Bound(live + {NULL, tree.nil, tree.above});
      tree.RootParent();
      assert bound !in live && !tree.LeadsTo(bound);
      n :| n != NULL && n != tree.nil && n !in live && (careful ==> !tree.LeadsTo(n));
      cell := *;
    }

    // The new tree node gets its key and is linked in.
    method LinkRbNode(rbnode: Ref, cell: Cell, h: int)
      requires Grown() && !Upset()
      requires rbnode != NULL && rbnode != tree.nil && rbnode !in live
      requires careful ==> !tree.LeadsTo(rbnode)
      modifies this`live, tree`root, tree`size, tree`mem, tree`key, tree`t, tree`above
      ensures Grown() && Nodes(tree.t) == old(Nodes(tree.t)) + {rbnode}
      ensures tree.key == old(tree.key)[rbnode := h] && |Inorder(tree.t)| == |old(Inorder(tree.t))| + 1
      ensures old(Labels(Nodes(tree.t) + {rbnode}, tree.key[rbnode := h], data, ring, place)) ==> Labelled()
    {
      NotUpset(rbnode);
      live := live + {rbnode};
      tree.NewNode(rbnode, h, cell);
      ghost var before := Inorder(tree.t);
      SetOfOrder(tree.t);
      tree.Insert(rbnode);
      tree.InsertionNodes(before, rbnode);
    }

    lemma SetOfOrder(t: Shape)
      ensures Nodes(t) == set n | n in Inorder(t)
    {
      forall n ensures n in Nodes(t) <==> n in Inorder(t) {
        InorderNodes(t, n);
      }
    }

    // Takes the node out of the tree; its memory goes back to the allocator.
    method DelRbNode(rbnode: Ref)
      requires Grown() && rbnode in Nodes(tree.t)
      modifies this`live, tree`root, tree`size, tree`mem, tree`t, tree`above
      ensures Grown() && Nodes(tree.t) == old(Nodes(tree.t)) - {rbnode}
      ensures |Inorder(tree.t)| == |old(Inorder(tree.t))| - 1
      ensures old(Labels(Nodes(tree.t) - {rbnode}, tree.key, data, ring, place)) ==> Labelled()
    {
      ghost var before := tree.t;
      RealNode(rbnode);
      tree.Delete(rbnode);
      tree.RemovalNodes(before, rbnode);
      live := live - {rbnode};
    }

    lemma RealNode(n: Ref)
      requires tree.Sound() && n in Nodes(tree.t)
      ensures n != NULL && n != tree.nil && Apart(tree.t)
    {
      RepNodes(tree.S(), tree.t, tree.above);
    }

    // The virtual node of a hash value.
    method FindVirtual(h: int) returns (found: Ref)
      requires tree.Sound() && Labels(Nodes(tree.t), tree.key, data, ring, place)
      ensures found == NULL <==> h !in ring
      ensures h in ring ==> found in Nodes(tree.t) && tree.key[found] == h && data[found] == VirtualNode(h, ring[h])
    {
      found := tree.Search(h);
    }

    // One turn of the loop over the replicas of a new server.
    method AddReplica(node: ServerNode, h: int)
      requires Valid() && !Upset()
      modifies this`ivnodes, this`data, this`live, this`ring, this`place
      modifies tree`root, tree`size, tree`mem, tree`key, tree`t, tree`above
      ensures Valid() && ring == if h in old(ring) then old(ring) else old(ring)[h := node]
    {
      var found := FindVirtual(h);
      if found == NULL {
        AddVirtual(node, h);
      }
    }

    method AddVirtual(node: ServerNode, h: int)
      requires Valid() && !Upset() && h !in ring
      modifies this`ivnodes, this`data, this`live, this`ring, this`place
      modifies tree`root, tree`size, tree`mem, tree`key, tree`t, tree`above
      ensures Valid() && ring == old(ring)[h := node]
    {
      WrapIncrement(|Inorder(tree.t)|);
      NewVirtual(node, h);
      ivnodes := (ivnodes + 1) % UINT_RANGE;
    }

    method NewVirtual(node: ServerNode, h: int)
      requires Labelled() && !Upset() && h !in ring
      modifies this`data, this`live, this`ring, this`place
      modifies tree`root, tree`size, tree`mem, tree`key, tree`t, tree`above
      ensures Labelled() && ring == old(ring)[h := node] && |Inorder(tree.t)| == |old(Inorder(tree.t))| + 1
    {
      var rbnode, cell := Malloc();
      GetRbNode(rbnode, node, h);
      LinkRbNode(rbnode, cell, h);
    }

    // The data of the new tree node.
    method GetRbNode(rbnode: Ref, node: ServerNode, h: int)
      requires Labels(Nodes(tree.t), tree.key, data, ring, place) && rbnode !in Nodes(tree.t) && h !in ring
      modifies this`data, this`ring, this`place
      ensures Labels(Nodes(tree.t) + {rbnode}, tree.key[rbnode := h], data, ring, place) && ring == old(ring)[h := node]
    {
      LabelsAdd(Nodes(tree.t), tree.key, data, ring, place, rbnode, h, node);
      data := data[rbnode := VirtualNode(h, node)];
      ring, place := ring[h := node], place[h := rbnode];
    }

    // One turn of the loop over the replicas of a server that leaves.
    method DelReplica(node: ServerNode, h: int)
      requires Valid()
      modifies this`ivnodes, this`live, this`ring, this`place, tree`root, tree`size, tree`mem, tree`t, tree`above
      ensures Valid() && ring == if h in old(ring) && old(ring)[h] == node then old(ring) - {h} else old(ring)
    {
      var rbnode := FindVirtual(h);
      if rbnode != NULL {
        var vnode := data[rbnode];
        if vnode.hash == h && vnode.node == node {
          DelVirtual(rbnode, h);
        }
      }
    }

    method DelVirtual(rbnode: Ref, h: int)
      requires Valid() && rbnode in Nodes(tree.t) && tree.key[rbnode] == h
      modifies this`ivnodes, this`live, this`ring, tree`root, tree`size, tree`mem, tree`t, tree`above
      ensures Valid() && ring == old(ring) - {h}
    {
      InorderNodes(tree.t, rbnode);
      WrapDecrement(|Inorder(tree.t)|);
      ivnodes := (ivnodes - 1) % UINT_RANGE;
      DropVirtual(rbnode, h);
    }

    method DropVirtual(rbnode: Ref, h: int)
      requires Labelled() && rbnode in Nodes(tree.t) && tree.key[rbnode] == h
      modifies this`live, this`ring, tree`root, tree`size, tree`mem, tree`t, tree`above
      ensures Labelled() && ring == old(ring) - {h} && |Inorder(tree.t)| == |old(Inorder(tree.t))| - 1
    {
      LabelsRemove(Nodes(tree.t), tree.key, data, ring, place, rbnode);
      ring := ring - {h};
      DelRbNode(rbnode);
    }

    // The hash values of the first `n` replicas of a server.
    ghost function Hashes(iden: string, n: nat): (r: seq<int>)
      ensures |r| == n
    {
      seq(n, i requires 0 <= i < n => hash(ReplicaName(iden, i)))
    }

    lemma HashesLast(iden: string, n: nat)
      ensures Hashes(iden, n + 1)[..n] == Hashes(iden, n)
      ensures Hashes(iden, n + 1)[n] == hash(ReplicaName(iden, n))
    {
    }

    // Follows the code as long as the tree is not upset.
    method AddReplicas(node: ServerNode) returns (done: nat)
      requires Valid()
      modifies this`ivnodes, this`data, this`live, this`ring, this`place
      modifies tree`root, tree`size, tree`mem, tree`key, tree`t, tree`above
      ensures Valid() && done <= node.replicas && ring == AddAll(old(ring), Hashes(node.iden, done), node)
      ensures done < node.replicas ==> Upset() && !careful
    {
      done := 0;
      while done < node.replicas && !Upset()
        invariant 0 <= done <= node.replicas && Valid()
        invariant ring == AddAll(old(ring), Hashes(node.iden, done), node)
      {
        HashesLast(node.iden, done);
        AddReplica(node, hash(ReplicaName(node.iden, done)));
        done := done + 1;
      }
      NotUpset(tree.root);
    }

    method DelReplicas(node: ServerNode)
      requires Valid()
      modifies this`ivnodes, this`live, this`ring, this`place, tree`root, tree`size, tree`mem, tree`t, tree`above
      ensures Valid() && ring == DelAll(old(ring), Hashes(node.iden, node.replicas), node)
    {
      var i := 0;
      while i < node.replicas
        invariant 0 <= i <= node.replicas && Valid()
        invariant ring == DelAll(old(ring), Hashes(node.iden, i), node)
      {
        HashesLast(node.iden, i);
        DelReplica(node, hash(ReplicaName(node.iden, i)));
        i := i + 1;
      }
    }

    method AddNode(node: ServerNode?) returns (r: int, done: nat)
      requires Valid()
      modifies (if node == null then {} else {node})`flagIn, this`ivnodes, this`data, this`live, this`ring, this`place
      modifies tree`root, tree`size, tree`mem, tree`key, tree`t, tree`above
      ensures Valid()
      ensures r == 0 <==> node != null && old(node.flagInit) && !old(node.flagIn)
      ensures r == 0 ==> node.flagIn && ring == AddAll<ServerNode>(old(ring), Hashes(node.iden, done), node)
      ensures r == 0 ==> done <= node.replicas && (done < node.replicas ==> Upset() && !careful)
      ensures r != 0 ==> r == -1 && ring == old(ring) && (node != null ==> node.flagIn == old(node.flagIn))
    {
      if node == null || !node.flagInit || node.flagIn {
        return -1, 0;
      }
      node.flagIn := true;
      done := AddReplicas(node);
      r := 0;
    }

    method DelNode(node: ServerNode?) returns (r: int)
      requires Valid()
      modifies (if node == null then {} else {node})`flagIn, this`ivnodes, this`live, this`ring, this`place, tree`root,
        tree`size, tree`mem, tree`t, tree`above
      ensures Valid()
      ensures r == 0 <==> node != null && old(node.flagInit) && old(node.flagIn)
      ensures r == 0 ==> !node.flagIn && ring == DelAll<ServerNode>(old(ring), Hashes(node.iden, node.replicas), node)
      ensures r != 0 ==> r == -1 && ring == old(ring) && (node != null ==> node.flagIn == old(node.flagIn))
    {
      if node == null || !node.flagInit || !node.flagIn {
        return -1;
      }
      node.flagIn := false;
      DelReplicas(node);
      return 0;
    }

    // Runs of additions and deletions of servers, as HashRing has them

    ghost function ServerHashes(): ServerNode -> seq<int> {
      (v: ServerNode) => Hashes(v.iden, v.replicas)
    }

    ghost function Members(pool: set<ServerNode>): set<ServerNode>
      reads pool
    {
      set v | v in pool && v.flagIn
    }

    lemma MembersAre(pool: set<ServerNode>, before: set<ServerNode>, v: ServerNode)
      requires v in pool && before <= pool && forall w :: w in pool && w != v ==> (w.flagIn <==> w in before)
      ensures Members(pool) == if v.flagIn then before + {v} else before - {v}
    {
    }

    method ChangeNode(c: Change<ServerNode>, ghost pool: set<ServerNode>)
      requires Valid() && careful && c.v in pool && c.v.flagInit
      modifies c.v`flagIn, this`ivnodes, this`data, this`live, this`ring, this`place
      modifies tree`root, tree`size, tree`mem, tree`key, tree`t, tree`above
      ensures Valid()
      ensures (ring, Members(pool)) == Apply(old(ring), old(Members(pool)), ServerHashes(), c)
    {
      assert ServerHashes()(c.v) == Hashes(c.v.iden, c.v.replicas);
      match c {
        case Join(v) =>
          var _, _ := AddNode(v);
        case Leave(v) =>
          var _ := DelNode(v);
      }
      MembersAre(pool, old(Members(pool)), c.v);
    }

    // The flags of the servers are the members of the run.
    method ChangeAll(cs: seq<Change<ServerNode>>, ghost pool: set<ServerNode>)
      requires Valid() && careful && forall i :: 0 <= i < |cs| ==> cs[i].v in pool && cs[i].v.flagInit
      modifies pool`flagIn, this`ivnodes, this`data, this`live, this`ring, this`place
      modifies tree`root, tree`size, tree`mem, tree`key, tree`t, tree`above
      ensures Valid()
      ensures (ring, Members(pool)) == ApplyAll(old(ring), old(Members(pool)), ServerHashes(), cs)
      ensures old(OwnKeys(ring, Members(pool), ServerHashes())) ==> OwnKeys(ring, Members(pool), ServerHashes())
      ensures TellsApart(pool) && old(Full(ring, Members(pool), ServerHashes())) ==>
        Full(ring, Members(pool), ServerHashes())
    {
      RunKeeps(ring, Members(pool), cs, pool);
      var i := 0;
      while i < |cs|
        invariant 0 <= i <= |cs| && Valid()
        invariant ApplyAll(ring, Members(pool), ServerHashes(), cs[i..])
          == ApplyAll(old(ring), old(Members(pool)), ServerHashes(), cs)
      {
        assert cs[i..][1..] == cs[i + 1..];
        ChangeNode(cs[i], pool);
        i := i + 1;
      }
    }

    lemma RunKeeps(ring: map<int, ServerNode>, members: set<ServerNode>, cs: seq<Change<ServerNode>>,
        pool: set<ServerNode>)
      requires members <= pool && forall i :: 0 <= i < |cs| ==> cs[i].v in pool
      ensures var (r, m) := ApplyAll(ring, members, ServerHashes(), cs);
        && (OwnKeys(ring, members, ServerHashes()) ==> OwnKeys(r, m, ServerHashes()))
        && (TellsApart(pool) && Full(ring, members, ServerHashes()) ==> Full(r, m, ServerHashes()))
    {
      if OwnKeys(ring, members, ServerHashes()) {
        ApplyAllKeeps(ring, members, ServerHashes(), cs);
      }
      if TellsApart(pool) && Full(ring, members, ServerHashes()) {
        ServersTell(pool);
        ApplyAllFull(ring, members, ServerHashes(), cs, pool);
      }
    }

    // Servers have different names that fit, and the hash function tells their replicas apart.
    ghost predicate TellsApart(pool: set<ServerNode>) {
      && (forall v, w :: v in pool && w in pool && v.iden == w.iden ==> v == w)
      && (forall v, i :: v in pool && 0 <= i < v.replicas ==> Fits(v.iden, i))
      && (forall v, w, i, j :: v in pool && w in pool && 0 <= i < v.replicas && 0 <= j < w.replicas ==>
            (hash(ReplicaName(v.iden, i)) == hash(ReplicaName(w.iden, j)) ==>
              ReplicaName(v.iden, i) == ReplicaName(w.iden, j)))
    }

    lemma ServersTell(pool: set<ServerNode>)
      requires TellsApart(pool)
      ensures Telling(ServerHashes(), pool)
    {
      forall v, w, i, j | v in pool && w in pool && 0 <= i < v.replicas && 0 <= j < w.replicas
        && Hashes(v.iden, v.replicas)[i] == Hashes(w.iden, w.replicas)[j]
        ensures v == w && i == j
      {
        NamesDiffer(v.iden, i, w.iden, j);
      }
    }

    // A fresh server gets as many keys as it has replicas, and takes none from another one.
    method AddFresh(node: ServerNode, ghost pool: set<ServerNode>)
      requires Valid() && careful && node in pool && node.flagInit && !node.flagIn
      requires TellsApart(pool) && Full(ring, Members(pool), ServerHashes())
      modifies node`flagIn, this`ivnodes, this`data, this`live, this`ring, this`place
      modifies tree`root, tree`size, tree`mem, tree`key, tree`t, tree`above
      ensures Valid() && Full(ring, Members(pool), ServerHashes()) && Members(pool) == old(Members(pool)) + {node}
      ensures |ring| == |old(ring)| + node.replicas
      ensures forall i :: 0 <= i < node.replicas ==>
        hash(ReplicaName(node.iden, i)) in ring && ring[hash(ReplicaName(node.iden, i))] == node
      ensures forall k :: k in old(ring) ==> k in ring && ring[k] == old(ring)[k]
      ensures forall k :: k in ring && k !in old(ring) ==> ring[k] == node
    {
      ServersTell(pool);
      FullJoin(ring, Members(pool), ServerHashes(), node, pool);
      ApplyFull(ring, Members(pool), ServerHashes(), Join(node), pool);
      ChangeNode(Join(node), pool);
      OwnReplicas(node, ring, Members(pool));
    }

    lemma OwnReplicas(node: ServerNode, ring: map<int, ServerNode>, members: set<ServerNode>)
      requires Full(ring, members, ServerHashes()) && node in members
      ensures forall i :: 0 <= i < node.replicas ==>
        hash(ReplicaName(node.iden, i)) in ring && ring[hash(ReplicaName(node.iden, i))] == node
    {
      forall i | 0 <= i < node.replicas
        ensures hash(ReplicaName(node.iden, i)) in ring && ring[hash(ReplicaName(node.iden, i))] == node
      {
        assert ServerHashes()(node)[i] == hash(ReplicaName(node.iden, i));
      }
    }

    // A server that comes and goes leaves no trace, wherever a run has led.
    method JoinAndLeave(node: ServerNode, ghost pool: set<ServerNode>)
      requires Valid() && careful && node in pool && node.flagInit && !node.flagIn
      requires OwnKeys(ring, Members(pool), ServerHashes())
      modifies node`flagIn, this`ivnodes, this`data, this`live, this`ring, this`place
      modifies tree`root, tree`size, tree`mem, tree`key, tree`t, tree`above
      ensures Valid() && ring == old(ring) && Members(pool) == old(Members(pool))
    {
      JoinLeave(ring, Members(pool), ServerHashes(), node);
      ChangeNode(Join(node), pool);
      ChangeNode(Leave(node), pool);
    }

    // The server that an object belongs to.
    method Lookup(object_: string) returns (r: ServerNode?)
      requires Valid()
      ensures r == null <==> |ring| % UINT_RANGE == 0
      ensures r != null ==> exists k :: IsOwnerKey(ring.Keys, hash(object_), k) && r == ring[k]
    {
      RingSize();
      if ivnodes == 0 {
        return null;
      }
      var h := hash(object_);
      var rbnode := tree.Lookup(h);
      OwnerIsOwnerKey(h);
      r := data[rbnode].node;
    }

    // Drops all virtual nodes, root first.
    method Fini()
      requires Grown()
      modifies this`live, tree`root, tree`size, tree`mem, tree`t, tree`above
      ensures Grown() && tree.t == Leaf
    {
      while tree.root != tree.nil
        invariant Grown()
        decreases |Inorder(tree.t)|
      {
        RootInTree();
        DelRbNode(tree.root);
      }
    }

    lemma RootInTree()
      requires tree.Sound()
      ensures tree.root == tree.nil <==> tree.t == Leaf
      ensures tree.root != tree.nil ==> tree.root in Nodes(tree.t)
    {
    }

    // The tree has as many nodes as the ring has keys.
    lemma RingSize()
      requires Valid()
      ensures |Inorder(tree.t)| == |ring|
    {
      InorderSize(tree.t);
      KeyCount(Nodes(tree.t), tree.key, data, ring, place);
    }

    lemma {:induction false} KeyCount(nodes: set<Ref>, key: map<Ref, int>, data: map<Ref, VirtualNode>,
        ring: map<int, ServerNode>, place: map<int, Ref>)
      requires Labels(nodes, key, data, ring, place)
      ensures |nodes| == |ring|
      decreases nodes
    {
      if nodes == {} {
        assert forall k :: k !in ring;
        assert ring == map[];
      } else {
        var n :| n in nodes;
        LabelsRemove(nodes, key, data, ring, place, n);
        KeyCount(nodes - {n}, key, data, ring - {key[n]}, place);
        assert (ring - {key[n]}).Keys == ring.Keys - {key[n]};
      }
    }

    lemma OwnerIsOwnerKey(h: int)
      requires Valid() && tree.t.Bin?
      ensures var r := Owner(tree.key, Inorder(tree.t), h);
        && r in Nodes(tree.t) && r in tree.key && r in data && tree.key[r] in ring
        && IsOwnerKey(ring.Keys, h, tree.key[r]) && data[r].node == ring[tree.key[r]]
    {
      var s := Inorder(tree.t);
      var i := FirstAtLeast(tree.key, s, h);
      var r := Owner(tree.key, s, h);
      assert r in s;
      InorderNodes(tree.t, r);
      forall k | k in ring.Keys ensures exists j :: 0 <= j < |s| && tree.key[s[j]] == k {
        InorderNodes(tree.t, place[k]);
      }
    }
  }
}
