/** SQLStatistics for unique indexes only: the rows of the other indexes are unlinked from the stored
    result (driver/catalog_no_i_s.c). */
module ListFilter {

  class RowNode {
    const data: seq<string>
    var next: RowNode?

    constructor (data: seq<string>, next: RowNode?)
      ensures this.data == data && this.next == next
    {
      this.data, this.next := data, next;
    }

    /** The column Non_unique says "0". */
    predicate Unique()
      requires |data| > 1 && data[1] != ""
    {
      data[1][0] == '0'
    }
  }

  class StoredRows {
    var head: RowNode?
    var rowCount: nat
  }

  /** The nodes are different ones, linked in this order from `first` to the end of the list. */
  predicate Chain(first: RowNode?, nodes: seq<RowNode>)
    reads nodes
  {
    && Distinct(nodes)
    && first == (if nodes == [] then null else nodes[0])
    && forall i :: 0 <= i < |nodes| ==> nodes[i].next == if i + 1 < |nodes| then nodes[i + 1] else null
  }

  predicate Distinct(nodes: seq<RowNode>) {
    forall i, j :: 0 <= i < j < |nodes| ==> nodes[i] != nodes[j]
  }

  predicate HaveIndexKind(nodes: seq<RowNode>) {
    forall i :: 0 <= i < |nodes| ==> |nodes[i].data| > 1 && nodes[i].data[1] != ""
  }

  /** The nodes of unique indexes, in their order. */
  function UniqueOnes(nodes: seq<RowNode>): (r: seq<RowNode>)
    requires HaveIndexKind(nodes)
    ensures |r| <= |nodes| && forall n <- r :: n in nodes
  {
    if nodes == [] then []
    else
      var k := |nodes| - 1;
      UniqueOnes(nodes[..k]) + if nodes[k].Unique() then [nodes[k]] else []
  }

  lemma {:induction false} UniqueOnesExact(nodes: seq<RowNode>)
    requires HaveIndexKind(nodes) && Distinct(nodes)
    ensures Distinct(UniqueOnes(nodes))
    ensures forall i :: 0 <= i < |nodes| ==> (nodes[i] in UniqueOnes(nodes) <==> nodes[i].data[1][0] == '0')
  {
    if nodes != [] {
      var k := |nodes| - 1;
      UniqueOnesExact(nodes[..k]);
      assert nodes[k] !in nodes[..k];
    }
  }

  lemma UniqueOnesStep(nodes: seq<RowNode>, k: nat)
    requires HaveIndexKind(nodes) && Distinct(nodes) && k < |nodes|
    ensures UniqueOnes(nodes[..k + 1]) == UniqueOnes(nodes[..k]) + if nodes[k].Unique() then [nodes[k]] else []
    ensures Distinct(UniqueOnes(nodes[..k])) && forall j :: k <= j < |nodes| ==> nodes[j] !in UniqueOnes(nodes[..k])
  {
    assert nodes[..k + 1][..k] == nodes[..k];
    UniqueOnesExact(nodes[..k]);
    forall j | k <= j < |nodes| ensures nodes[j] !in UniqueOnes(nodes[..k]) {
      assert nodes[j] !in nodes[..k];
    }
  }

  /** The nodes kept so far are linked from the head on, `last` being the last of them; its own link is
      still to be set. */
  predicate LinkedUpTo(head: RowNode?, kept: seq<RowNode>, last: RowNode?)
    reads kept
  {
    && Distinct(kept)
    && (if kept == [] then last == null else head == kept[0] && last == kept[|kept| - 1])
    && forall i :: 0 <= i < |kept| - 1 ==> kept[i].next == kept[i + 1]
  }

  /** The nodes from k on are linked as they were. */
  predicate Untouched(nodes: seq<RowNode>, k: nat)
    reads nodes
  {
    forall i :: k <= i < |nodes| ==> nodes[i].next == if i + 1 < |nodes| then nodes[i + 1] else null
  }

  /** *prev = pos, where prev is the link of the last node kept, or the head of the list. */
  method SetLink(result: StoredRows, last: RowNode?, pos: RowNode?, ghost kept: seq<RowNode>, ghost nodes: seq<RowNode>,
                 ghost k: nat)
    requires LinkedUpTo(result.head, kept, last)
    requires k <= |nodes| && Untouched(nodes, k) && forall i :: k <= i < |nodes| ==> nodes[i] !in kept
    modifies result`head, last
    ensures pos == null ==> Chain(result.head, kept)
    ensures pos != null && pos !in kept ==> LinkedUpTo(result.head, kept + [pos], pos)
    ensures Untouched(nodes, k)
  {
    if last == null {
      result.head := pos;
    } else {
      assert last in kept;
      last.next := pos;
    }
  }

  /** The filter in place: of the list's own nodes those of unique indexes stay, in their order, and the
      row count falls by the number of those unlinked. */
  method KeepUnique(result: StoredRows, ghost nodes: seq<RowNode>)
    requires Chain(result.head, nodes) && HaveIndexKind(nodes) && result.rowCount == |nodes|
    modifies result, nodes
    ensures Chain(result.head, UniqueOnes(nodes)) && result.rowCount == |UniqueOnes(nodes)|
  {
    hide UniqueOnes, Distinct;
    var last: RowNode? := null;
    var pos := result.head;
    ghost var k, kept: seq<RowNode> := 0, [];
    NoneKept(nodes);
    while pos != null
      invariant 0 <= k <= |nodes| && kept == UniqueOnes(nodes[..k]) && |kept| <= k
      invariant pos == if k < |nodes| then nodes[k] else null
      invariant LinkedUpTo(result.head, kept, last) && Untouched(nodes, k)
      invariant last != null ==> last in nodes
      invariant result.rowCount == |nodes| - k + |kept|
      decreases |nodes| - k
    {
      UniqueOnesStep(nodes, k);
      if pos.Unique() {
        SetLink(result, last, pos, kept, nodes, k);
        kept := kept + [pos];
        last := pos;
      } else {
        result.rowCount := result.rowCount - 1;
      }
      pos, k := pos.next, k + 1;
    }
    SetLink(result, last, null, kept, nodes, |nodes|);
    assert nodes[..k] == nodes;
  }

  lemma NoneKept(nodes: seq<RowNode>)
    requires HaveIndexKind(nodes)
    ensures UniqueOnes(nodes[..0]) == [] && Distinct(UniqueOnes(nodes[..0]))
  {
  }
}
