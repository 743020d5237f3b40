/**
 * The document tree the handler builds. Elements below the root live in an
 * arena (a sequence indexed by handle); every element names its parent and
 * lists its children's handles in the order they were added. The root
 * element is the document itself.
 */
module Tree {
  import opened Attributes

  /** The parent of an element: the document root or another element. */
  datatype Parent = Root | Node(index: nat)

  /** A processing instruction: target and data. */
  datatype Instruction = Instruction(target: string, data: string)

  datatype Element = Element(
    name: string,
    attributes: seq<Attribute>,
    namespaces: seq<Namespace>,
    parent: Parent,
    children: seq<nat>)

  /** The document: its root element and the instructions attached to it. */
  datatype Document = Document(
    rootName: string,
    attributes: seq<Attribute>,
    namespaces: seq<Namespace>,
    children: seq<nat>,
    instructions: seq<Instruction>)

  /**
   * The handles below `k` whose element has parent `p`, in increasing order:
   * the child list `p` has when children are appended as they are created.
   */
  function ChildIndices(nodes: seq<Element>, p: Parent, k: nat): seq<nat>
    requires k <= |nodes|
    decreases k
  {
    if k == 0 then []
    else ChildIndices(nodes, p, k - 1) + (if nodes[k - 1].parent == p then [k - 1] else [])
  }

  /**
   * The child list of `p` holds every handle below `k` whose parent is `p`,
   * and nothing else, in strictly increasing (creation) order.
   */
  lemma {:induction false} ChildIndicesExact(nodes: seq<Element>, p: Parent, k: nat)
    requires k <= |nodes|
    ensures forall i :: 0 <= i < |ChildIndices(nodes, p, k)| ==>
      ChildIndices(nodes, p, k)[i] < k && nodes[ChildIndices(nodes, p, k)[i]].parent == p
    ensures forall i :: 0 <= i < k && nodes[i].parent == p ==> i in ChildIndices(nodes, p, k)
    ensures forall i, j :: 0 <= i < j < |ChildIndices(nodes, p, k)| ==>
      ChildIndices(nodes, p, k)[i] < ChildIndices(nodes, p, k)[j]
    decreases k
  {
    if k > 0 {
      ChildIndicesExact(nodes, p, k - 1);
    }
  }

  /** Child lists depend on the parent links alone. */
  lemma {:induction false} ChildIndicesFrame(a: seq<Element>, b: seq<Element>, p: Parent, k: nat)
    requires k <= |a| && k <= |b|
    requires forall i :: 0 <= i < k ==> a[i].parent == b[i].parent
    ensures ChildIndices(a, p, k) == ChildIndices(b, p, k)
    decreases k
  {
    if k > 0 {
      ChildIndicesFrame(a, b, p, k - 1);
    }
  }

  /** An element that no handle below `k` names as parent has no children there. */
  lemma {:induction false} NoChildIndices(nodes: seq<Element>, p: Parent, k: nat)
    requires k <= |nodes|
    requires forall i :: 0 <= i < k ==> nodes[i].parent != p
    ensures ChildIndices(nodes, p, k) == []
    decreases k
  {
    if k > 0 {
      NoChildIndices(nodes, p, k - 1);
    }
  }
}
