/**
 The list of allocated blocks of FSBL/cmocka.c as a ring: its nodes lie inside the records in
 front of the payloads, so a node is reached from a payload pointer by address arithmetic and is
 overwritten when its block is freed. The list keeps the history of its blocks as ghost state,
 which ties every run of the allocator to the runs of `BlockRuns`.
 */
module BlockLists {
  import opened Basics
  import opened Rings
  import opened BlockRuns

  /** Each node lies in the record of its block, and `links` finds it there. */
  ghost predicate InRecords(nodes: seq<ListNode>, blocks: seq<nat>, links: map<nat, ListNode>, offset: nat)
    reads nodes`value
  {
    && |nodes| == |blocks| && Distinct(blocks)
    && (forall i :: 0 <= i < |nodes| ==>
          && blocks[i] in links && links[blocks[i]] == nodes[i]
          && nodes[i].value.Payload? && nodes[i].value.addr + offset == blocks[i])
  }

  lemma InRecordsAppend(nodes: seq<ListNode>, blocks: seq<nat>, links: map<nat, ListNode>, offset: nat,
                        node: ListNode, p: nat)
    requires InRecords(nodes, blocks, links, offset) && p !in blocks && node !in nodes
    requires node.value.Payload? && node.value.addr + offset == p
    ensures InRecords(nodes + [node], blocks + [p], links[p := node], offset)
  {
  }

  lemma InRecordsWithout(nodes: seq<ListNode>, blocks: seq<nat>, links: map<nat, ListNode>, offset: nat, k: nat)
    requires InRecords(nodes, blocks, links, offset) && k < |blocks|
    ensures InRecords(Without(nodes, k), Without(blocks, k), links - {blocks[k]}, offset)
  {
    WithoutMembers(blocks, k);
  }

  /** The ring represents the list of blocks. */
  ghost predicate IsBlockRing(head: ListNode, nodes: seq<ListNode>, blocks: seq<nat>, links: map<nat, ListNode>,
                              offset: nat)
    reads head, nodes
  {
    IsRing(head, nodes) && InRecords(nodes, blocks, links, offset)
  }

  /** The node value and list_add of _test_malloc. */
  method AddRecord(head: ListNode, ghost nodes: seq<ListNode>, ghost blocks: seq<nat>, ghost links: map<nat,
                   ListNode>, offset: nat, p: nat)
    returns (node: ListNode)
    requires IsBlockRing(head, nodes, blocks, links, offset) && p !in blocks && offset <= p
    modifies head`next, head`prev, nodes`next
    ensures fresh(node) && IsBlockRing(head, nodes + [node], blocks + [p], links[p := node], offset)
  {
    node := new ListNode();
    node.value := Value.Payload(p - offset);
    ListAdd(head, nodes, node);
    InRecordsAppend(nodes, blocks, links, offset, node, p);
  }

  /** list_remove, after which the node is overwritten. */
  method RemoveAndOverwrite(node: ListNode, ghost head: ListNode, ghost nodes: seq<ListNode>, ghost k: nat)
    requires IsRing(head, nodes) && k < |nodes| && nodes[k] == node
    modifies head`next, head`prev, nodes`next, nodes`prev, node`value
    ensures IsRing(head, Without(nodes, k))
  {
    WithoutMembers(nodes, k);
    var _ := ListRemove(node, head, nodes, k);
    node.next, node.prev, node.value := node, node, Null;
  }

  /**
   list_remove in _test_free; the free pattern written next destroys the node: its links lead nowhere, here to itself.
   */
  method RemoveRecord(node: ListNode, ghost head: ListNode, ghost nodes: seq<ListNode>, ghost blocks: seq<nat>,
                      ghost links: map<nat, ListNode>, ghost offset: nat, ghost k: nat, ghost fp: set<ListNode>)
    requires IsBlockRing(head, nodes, blocks, links, offset) && Covers(fp, head, nodes)
    requires k < |nodes| && nodes[k] == node
    modifies fp`next, fp`prev, fp`value
    ensures IsBlockRing(head, Without(nodes, k), Without(blocks, k), links - {blocks[k]}, offset)
    ensures Covers(fp, head, Without(nodes, k))
  {
    WithoutMembers(nodes, k);
    InRecordsWithout(nodes, blocks, links, offset, k);
    RemoveAndOverwrite(node, head, nodes, k);
  }

  /** The nodes of the ring, the blocks they belong to, and how the list came about. */
  datatype View = View(nodes: seq<ListNode>, blocks: seq<nat>, history: seq<Op>) {
    ghost predicate Valid() { ValidRun([], history) && blocks == ListAfter([], history) }

    ghost function Add(node: ListNode, p: nat): View { View(nodes + [node], blocks + [p], history + [Alloc(p)]) }

    ghost function Drop(k: nat): View
      requires k < |nodes| && k < |blocks|
    {
      View(Without(nodes, k), Without(blocks, k), history + [Release(blocks[k])])
    }

    /** `v` lists the block `p` in addition, on its last node. */
    ghost predicate Grown(v: View, p: nat) { v.nodes != [] && v == Add(Last(v.nodes), p) }

    /** `v` lists the block `p` no longer, which was number k. */
    ghost predicate Shrunk(v: View, p: nat, k: nat) { k < |nodes| && k < |blocks| && blocks[k] == p && v == Drop(k) }

    /** Both, in this order. */
    ghost predicate Replaced(v: View, p: nat, q: nat, k: nat) {
      k < |nodes| && v.nodes != [] && Add(Last(v.nodes), p).Shrunk(v, q, k)
    }
  }

  lemma AddValid(v: View, node: ListNode, p: nat)
    requires v.Valid() && p !in v.blocks
    ensures v.Add(node, p).Valid()
  {
    RunSnoc([], v.history, Alloc(p));
  }

  lemma DropValid(v: View, k: nat)
    requires v.Valid() && Distinct(v.blocks) && k < |v.nodes| && k < |v.blocks|
    ensures v.Drop(k).Valid()
  {
    RunSnoc([], v.history, Release(v.blocks[k]));
    RemoveAt(v.blocks, k);
  }

  lemma ReplacedViews(v: View, v1: View, v2: View, p: nat, q: nat, k: nat)
    requires v.Grown(v1, p) && v1.Shrunk(v2, q, k) && |v.nodes| == |v.blocks| && p != q
    ensures v.Replaced(v2, p, q, k) && Last(v2.nodes) == Last(v1.nodes)
  {
  }

  // ---- Check points over a run ----

  /** What happened since the check point was taken. */
  ghost function Since(v: View, before: seq<Op>): seq<Op>
    requires before <= v.history
  {
    v.history[|before|..]
  }

  /** The block the check point stands on was not released, or it stands on the head. */
  ghost predicate StillListed(v: View, before: seq<Op>)
    requires before <= v.history
  {
    var start := ListAfter([], before);
    start != [] ==> Last(start) in OldBlocks(start, Since(v, before))
  }

  /**
   `c` was taken as the check point at the end of `before`: it is the head, or the node of a block while that is
   listed.
   */
  ghost predicate IsCheckPoint(head: ListNode, v: View, c: ListNode, before: seq<Op>) {
    && before <= v.history
    && var start := ListAfter([], before);
       if start == [] then c == head
       else
         StillListed(v, before) ==>
           exists j :: 0 <= j < |v.blocks| && j < |v.nodes| && v.blocks[j] == Last(start) && v.nodes[j] == c
  }

  lemma SinceSnoc(v: View, v': View, before: seq<Op>, op: Op)
    requires before <= v.history && v'.history == v.history + [op]
    ensures before <= v'.history && Since(v', before) == Since(v, before) + [op]
    ensures v.history == before + Since(v, before)
  {
  }

  /** Linking a block keeps every check point. */
  lemma {:induction false} GrownCheckPoint(head: ListNode, v: View, v': View, p: nat, c: ListNode, before: seq<Op>)
    requires v.Grown(v', p) && |v.nodes| == |v.blocks| && IsCheckPoint(head, v, c, before)
    ensures IsCheckPoint(head, v', c, before)
    ensures Since(v', before) == Since(v, before) + [Alloc(p)]
  {
    SinceSnoc(v, v', before, Alloc(p));
    var start := ListAfter([], before);
    if start != [] && StillListed(v', before) {
      assert Init(Since(v', before)) == Since(v, before);
      var j :| 0 <= j < |v.blocks| && v.blocks[j] == Last(start) && v.nodes[j] == c;
      assert v'.blocks[j] == Last(start) && v'.nodes[j] == c;
    }
  }

  /** A block still listed after a release was listed before it, and is not the one released. */
  lemma {:induction false} ListedBefore(start: seq<nat>, since: seq<Op>, p: nat, z: nat)
    requires Distinct(start) && z in OldBlocks(start, since + [Release(p)])
    ensures z in OldBlocks(start, since) && z != p
  {
    assert Init(since + [Release(p)]) == since && Last(since + [Release(p)]) == Release(p);
    OldBlocksDistinct(start, since);
    RemoveMembers(OldBlocks(start, since), p);
  }

  /** The node of a block stays its node when another block leaves. */
  lemma {:induction false} NodeAfterDrop(v: View, k: nat, j: nat) returns (j': nat)
    requires k < |v.blocks| == |v.nodes| && j < |v.blocks| && j != k
    ensures j' < |v.Drop(k).blocks| == |v.Drop(k).nodes|
    ensures v.Drop(k).blocks[j'] == v.blocks[j] && v.Drop(k).nodes[j'] == v.nodes[j]
  {
    j' := if j < k then j else j - 1;
  }

  /** Unlinking a block keeps every check point. */
  lemma {:induction false} ShrunkCheckPoint(head: ListNode, v: View, v': View, p: nat, k: nat, c: ListNode,
                                            before: seq<Op>)
    requires v.Shrunk(v', p, k) && v.Valid() && |v.nodes| == |v.blocks|
    requires IsCheckPoint(head, v, c, before)
    ensures IsCheckPoint(head, v', c, before)
    ensures Since(v', before) == Since(v, before) + [Release(p)]
  {
    SinceSnoc(v, v', before, Release(p));
    var start, since := ListAfter([], before), Since(v, before);
    if start != [] && StillListed(v', before) {
      RunAppend([], before, since);
      ListDistinct([], before);
      ListedBefore(start, since, p, Last(start));
      var j :| 0 <= j < |v.blocks| && j < |v.nodes| && v.blocks[j] == Last(start) && v.nodes[j] == c;
      var j' := NodeAfterDrop(v, k, j);
    }
  }

  /** Where the check point of a run stands in the list, and what the blocks behind it say about the run since. */
  lemma LeakPoint(head: ListNode, v: View, c: ListNode, before: seq<Op>) returns (k: nat)
    requires v.Valid() && |v.nodes| == |v.blocks| && Distinct(v.blocks)
    requires IsCheckPoint(head, v, c, before) && StillListed(v, before)
    ensures k <= |v.blocks| && v.blocks[..k] == OldBlocks(ListAfter([], before), Since(v, before))
    ensures c == if k == 0 then head else v.nodes[k - 1]
    ensures |v.blocks| > k <==> exists i :: StillLive(Since(v, before), i)
  {
    var start, since := ListAfter([], before), Since(v, before);
    assert v.history == before + since;
    RunAppend([], before, since);
    ListDistinct([], before);
    LeakCheck(start, since);
    k := |OldBlocks(start, since)|;
    if start != [] {
      var j :| 0 <= j < |v.blocks| && v.blocks[j] == Last(start) && v.nodes[j] == c;
      assert j == k - 1;
    }
  }

  class BlockList {
    /** global_allocated_blocks */
    const head: ListNode

    /** The distance from a record to its payload. */
    const offset: nat

    /** The node in the record of each listed block. */
    var links: map<nat, ListNode>

    ghost var view: View

    /** The head and every node that was ever linked. */
    ghost var fp: set<ListNode>

    ghost predicate Valid()
      reads this, fp
    {
      && Covers(fp, head, view.nodes)
      && view.Valid() && IsBlockRing(head, view.nodes, view.blocks, links, offset)
    }

    /** get_allocated_blocks_list on its first call */
    constructor (offset: nat)
      ensures Valid() && fresh(fp) && view == View([], [], []) && this.offset == offset
    {
      this.offset := offset;
      var h := new ListNode();
      head := h;
      links, view, fp := map[], View([], [], []), {h};
    }

    /** What _test_malloc does to the list. */
    method Link(p: nat)
      requires Valid() && p !in view.blocks && offset <= p
      modifies `links, `view, `fp, fp`next, fp`prev
      ensures Valid() && old(view).Grown(view, p) && fresh(fp - old(fp))
    {
      var node := AddRecord(head, view.nodes, view.blocks, links, offset, p);
      AddValid(view, node, p);
      links := links[p := node];
      view, fp := view.Add(node, p), fp + {node};
    }

    /** What _test_free does to the list; the block is number k in it. */
    method Unlink(p: nat, ghost k: nat)
      requires Valid() && k < |view.blocks| && view.blocks[k] == p
      modifies `links, `view, fp`next, fp`prev, fp`value
      ensures Valid() && view == old(view).Drop(k)
    {
      DropValid(view, k);
      var node := links[p];
      ghost var v, ls := view, links;
      links, view := links - {p}, view.Drop(k);
      RemoveRecord(node, head, v.nodes, v.blocks, ls, offset, k, fp);
    }

    /** The node `c` has k blocks up to and including it; the head has none. */
    ghost predicate Marks(c: ListNode, k: nat)
      reads this
    {
      k <= |view.nodes| && c == if k == 0 then head else view.nodes[k - 1]
    }

    /** check_point_allocated_blocks */
    method CheckPoint() returns (c: ListNode)
      requires Valid()
      ensures Marks(c, |view.blocks|) && IsCheckPoint(head, view, c, view.history)
    {
      c := head.prev;
      if view.blocks != [] {
        assert view.blocks[|view.blocks| - 1] == Last(view.blocks) && view.nodes[|view.blocks| - 1] == c;
      }
    }

    /** The node the k-th of the list is reached by, or the head when there is none. */
    ghost predicate IsNode(node: ListNode, k: nat)
      reads this
    {
      k <= |view.nodes| && node == if k < |view.nodes| then view.nodes[k] else head
    }

    method After(c: ListNode, ghost k: nat) returns (node: ListNode)
      requires Valid() && Marks(c, k)
      ensures IsNode(node, k)
    {
      node := c.next;
    }

    /** What the clean-up loop reads from a node: its block and the node after it. */
    method Read(node: ListNode, ghost k: nat) returns (p: nat, next: ListNode)
      requires Valid() && IsNode(node, k) && node != head
      ensures k < |view.nodes| && p == view.blocks[k] && IsNode(next, k + 1)
    {
      p := node.value.addr + offset;
      next := node.next;
    }

    /** display_allocated_blocks: the blocks listed after the check point */
    method Display(c: ListNode, ghost k: nat) returns (shown: seq<nat>)
      requires Valid() && Marks(c, k)
      ensures shown == view.blocks[k..]
    {
      shown := [];
      var node := After(c, k);
      ghost var i, bs := k, view.blocks;
      assert |bs| == |view.nodes|;
      while node != head
        invariant k <= i <= |bs| && IsNode(node, i) && shown == bs[k..i]
        decreases |bs| - i
      {
        var p;
        p, node := Read(node, i);
        SliceSnoc(bs, k, i);
        shown := shown + [p];
        i := i + 1;
      }
    }
  }
}
