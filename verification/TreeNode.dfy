/** The heap objects of the identity tree: nodes, and the ring buffer that queues them. */
module TreeNodes {
  import opened Forests
  import opened LevelOrder
  import opened IdentityTree

  /** A node's fields as a value; `kids` is the used part of its child array. */
  datatype NodeFields = NodeFields(info: Info, kids: seq<TreeNode?>, parent: TreeNode?, slots: nat, limit: nat)

  class TreeNode {
    var id: string
    var creationTime: int
    var isRoot: bool
    var isActive: bool
    var parent: TreeNode?
    const children: array<TreeNode?>
    var childCount: nat
    const maxChildren: nat

    constructor (maxChildren: nat, now: int)
      ensures fresh(children) && children.Length == maxChildren && this.maxChildren == maxChildren
      ensures id == "" && creationTime == now && !isRoot && isActive && parent == null && childCount == 0
    {
      id := "";
      children := new TreeNode?[maxChildren](_ => null);
      creationTime := now;
      isRoot := false;
      isActive := true;
      this.maxChildren := maxChildren;
      childCount := 0;
      parent := null;
    }

    ghost function GetInfo(): Info
      reads this
    {
      Info(id, creationTime, isRoot, isActive)
    }

    ghost function Fields(): NodeFields
      requires childCount <= children.Length
      reads this, children
    {
      NodeFields(GetInfo(), children[..childCount], parent, children.Length, maxChildren)
    }
  }

  ghost function OptionRef(o: Option<TreeNode>): TreeNode? {
    match o
    case None => null
    case Some(n) => n
  }

  /** The fixed ring buffer refines a first-in first-out sequence; a push on a full buffer is refused. */
  class NodeQueue {
    const nodes: array<TreeNode?>
    var front: nat
    var rear: nat
    var size: nat
    ghost var contents: seq<TreeNode>

    ghost predicate Valid()
      reads this, nodes
    {
      && nodes.Length == MAX_QUEUE_SIZE
      && front < MAX_QUEUE_SIZE
      && size == |contents| <= MAX_QUEUE_SIZE
      && rear == (front + size) % MAX_QUEUE_SIZE
      && forall i :: 0 <= i < size ==> nodes[(front + i) % MAX_QUEUE_SIZE] == contents[i]
    }

    constructor ()
      ensures Valid() && fresh(nodes) && contents == []
    {
      nodes := new TreeNode?[MAX_QUEUE_SIZE](_ => null);
      front, rear, size := 0, 0, 0;
      contents := [];
    }

    method Push(node: TreeNode) returns (ok: bool)
      requires Valid()
      modifies this, nodes
      ensures Valid() && ok == (|old(contents)| < 1000)
      ensures contents == if ok then old(contents) + [node] else old(contents)
    {
      if size >= MAX_QUEUE_SIZE {
        return false;
      }
      nodes[rear] := node;
      rear := (rear + 1) % MAX_QUEUE_SIZE;
      size := size + 1;
      contents := contents + [node];
      return true;
    }

    method Pop() returns (node: TreeNode?)
      requires Valid()
      modifies this
      ensures Valid()
      ensures old(contents) == [] ==> node == null && contents == []
      ensures old(contents) != [] ==> node == old(contents)[0] && contents == old(contents)[1..]
    {
      if size == 0 {
        return null;
      }
      node := nodes[front];
      assert node == contents[0];
      front := (front + 1) % MAX_QUEUE_SIZE;
      size := size - 1;
      contents := contents[1..];
    }
  }
}
