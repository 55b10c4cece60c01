/**
 The registry of temporary memory: a singly linked list of blocks, each under the call it belongs to,
 with its length kept beside it.
 */
module TempMemory {
  type Handle = seq<int>

  class Block {
    const callId: Handle
    const p: int
    var next: Block?

    constructor (callId: Handle, p: int, next: Block?)
      ensures this.callId == callId && this.p == p && this.next == next
    {
      this.callId, this.p, this.next := callId, p, next;
    }
  }

  /** The blocks of other calls, in order. */
  ghost function OthersThan(blocks: seq<Block>, id: Handle): seq<Block> {
    if blocks == [] then []
    else (if blocks[0].callId == id then [] else [blocks[0]]) + OthersThan(blocks[1..], id)
  }

  lemma {:induction false} NoneOfCall(blocks: seq<Block>, id: Handle)
    requires forall i :: 0 <= i < |blocks| ==> blocks[i].callId != id
    ensures OthersThan(blocks, id) == blocks
  {
    if blocks != [] {
      NoneOfCall(blocks[1..], id);
      assert blocks == [blocks[0]] + blocks[1..];
    }
  }

  lemma {:induction false} DropOne(blocks: seq<Block>, id: Handle, i: nat)
    requires i < |blocks| && blocks[i].callId == id
    ensures OthersThan(blocks[..i] + blocks[i + 1..], id) == OthersThan(blocks, id)
  {
    if i == 0 {
      assert blocks[..0] + blocks[1..] == blocks[1..];
    } else {
      var less := blocks[..i] + blocks[i + 1..];
      assert less[0] == blocks[0] && less[1..] == blocks[1..][..i - 1] + blocks[1..][i..];
      DropOne(blocks[1..], id, i - 1);
    }
  }

  lemma {:induction false} OthersHave(blocks: seq<Block>, id: Handle, b: Block)
    ensures b in OthersThan(blocks, id) <==> b in blocks && b.callId != id
  {
    if blocks != [] {
      OthersHave(blocks[1..], id, b);
      assert blocks == [blocks[0]] + blocks[1..];
    }
  }

  /** The block behind index `i`, if there is one. */
  ghost function After(blocks: seq<Block>, i: int): Block?
    requires -1 <= i
  {
    if i + 1 < |blocks| then blocks[i + 1] else null
  }

  lemma FirstAfter(blocks: seq<Block>)
    requires blocks != []
    ensures After(blocks, -1) == blocks[0]
  {
  }

  /** What follows each block once the one at `at` is unlinked. */
  lemma Unlinked(blocks: seq<Block>, at: nat)
    requires at < |blocks|
    ensures var less := blocks[..at] + blocks[at + 1..];
            && (forall i {:trigger After(less, i)} :: -1 <= i < at - 1 ==> After(less, i) == After(blocks, i))
            && After(less, at - 1) == After(blocks, at)
            && (forall i {:trigger After(less, i)} :: at <= i < |less| ==> After(less, i) == After(blocks, i + 1))
  {
  }

  class Registry {
    var list: Block?
    var listLength: int
    ghost var blocks: seq<Block>

    /** `blocks` are the blocks reached from `list`, each once, and `listLength` is their number. */
    ghost predicate Valid()
      reads this, blocks
    {
      && list == After(blocks, -1)
      && (forall i :: 0 <= i < |blocks| ==> blocks[i].next == After(blocks, i))
      && (forall i, j :: 0 <= i < j < |blocks| ==> blocks[i] != blocks[j])
      && listLength == |blocks|
    }

    constructor ()
      ensures Valid() && blocks == []
    {
      list, listLength, blocks := null, 0, [];
    }

    method AddMem(callId: Handle, p: int)
      requires Valid()
      modifies this, blocks
      ensures Valid() && |blocks| == |old(blocks)| + 1 && blocks[..|old(blocks)|] == old(blocks)
      ensures var b := blocks[|old(blocks)|]; fresh(b) && b.callId == callId && b.p == p
    {
      var cnode, pnode := list, list;
      ghost var k := 0;
      while cnode != null
        invariant 0 <= k <= |blocks| && cnode == After(blocks, k - 1)
        invariant pnode == if blocks == [] then null else blocks[if k == 0 then 0 else k - 1]
        decreases |blocks| - k
      {
        pnode := cnode;
        cnode := cnode.next;
        k := k + 1;
      }
      var nnode := new Block(callId, p, cnode);
      listLength := listLength + 1;
      if pnode != null {
        pnode.next := nnode;
      } else {
        list := nnode;
      }
      blocks := blocks + [nnode];
    }

    method DelAll()
      requires Valid()
      modifies this
      ensures Valid() && blocks == []
    {
      var cnode := list;
      ghost var k := 0;
      while cnode != null
        invariant 0 <= k <= |blocks| && cnode == After(blocks, k - 1)
        invariant listLength == |blocks| - k && blocks == old(blocks)
        invariant forall i :: 0 <= i < |blocks| ==> blocks[i].next == After(blocks, i)
        decreases |blocks| - k
      {
        var nnode := cnode.next;
        listLength := listLength - 1;
        cnode := nnode;
        k := k + 1;
      }
      list, blocks := null, [];
    }

    /** Unlinks one block; false when it is not in the list. */
    method DelBlock(node: Block) returns (found: bool, ghost at: nat)
      requires Valid()
      modifies this, blocks
      ensures Valid()
      ensures found <==> node in old(blocks)
      ensures found ==> at < |old(blocks)| && old(blocks)[at] == node &&
                        blocks == old(blocks)[..at] + old(blocks)[at + 1..]
      ensures !found ==> blocks == old(blocks)
    {
      hide After;
      var cnode, pnode;
      cnode, pnode, at := FindBlock(node);
      if cnode == null { return false, 0; }
      FirstAfter(blocks);
      ghost var was := blocks;
      Unlinked(was, at);
      if pnode == list && cnode == list {
        list := cnode.next;
      } else {
        pnode.next := cnode.next;
      }
      listLength := listLength - 1;
      blocks := was[..at] + was[at + 1..];
      forall i | 0 <= i < |blocks| ensures blocks[i].next == After(blocks, i) {
        assert blocks[i] == if i < at then was[i] else was[i + 1];
      }
      found := true;
    }

    /** Walks to a block and the one before it. */
    method FindBlock(node: Block) returns (cnode: Block?, pnode: Block?, ghost at: nat)
      requires Valid()
      ensures at <= |blocks| && cnode == After(blocks, at - 1) && (cnode == null || cnode == node)
      ensures if cnode == null then node !in blocks else at < |blocks| && blocks[at] == cnode
      ensures pnode == if blocks == [] then null else blocks[if at == 0 then 0 else at - 1]
    {
      cnode, pnode := list, list;
      at := 0;
      while cnode != null && cnode != node
        invariant at <= |blocks| && cnode == After(blocks, at - 1)
        invariant pnode == if blocks == [] then null else blocks[if at == 0 then 0 else at - 1]
        invariant node !in blocks[..at]
        decreases |blocks| - at
      {
        assert blocks[..at + 1] == blocks[..at] + [blocks[at]];
        pnode := cnode;
        cnode := cnode.next;
        at := at + 1;
      }
      assert at == |blocks| ==> blocks[..at] == blocks;
    }

    /** Removes the blocks of a call: finds one, unlinks it, and starts again. */
    method DelCall(id: Handle)
      requires Valid()
      modifies this, blocks
      ensures Valid() && blocks == OthersThan(old(blocks), id)
      decreases |blocks|
    {
      var cnode := list;
      ghost var k := 0;
      while cnode != null
        invariant 0 <= k <= |blocks| && cnode == After(blocks, k - 1)
        invariant forall i :: 0 <= i < k ==> blocks[i].callId != id
        decreases |blocks| - k
      {
        var nnode := cnode.next;
        if cnode.callId == id {
          ghost var was := blocks;
          ghost var at;
          var found;
          found, at := DelBlock(cnode);
          DropOne(was, id, at);
          DelCall(id);
          return;
        }
        cnode := nnode;
        k := k + 1;
      }
      NoneOfCall(blocks, id);
    }

    /** Removes the first block at an address. */
    method DelPointer(ptr: int) returns (found: bool)
      requires Valid()
      modifies this, blocks
      ensures Valid()
      ensures found <==> exists i :: 0 <= i < |old(blocks)| && old(blocks)[i].p == ptr
      ensures found ==> exists i ::
                0 <= i < |old(blocks)| && old(blocks)[i].p == ptr &&
                (forall j :: 0 <= j < i ==> old(blocks)[j].p != ptr) &&
                blocks == old(blocks)[..i] + old(blocks)[i + 1..]
      ensures !found ==> blocks == old(blocks)
    {
      var cnode := list;
      ghost var k := 0;
      while cnode != null
        invariant 0 <= k <= |blocks| && cnode == After(blocks, k - 1)
        invariant forall i :: 0 <= i < k ==> blocks[i].p != ptr
        decreases |blocks| - k
      {
        if cnode.p == ptr {
          ghost var was := blocks;
          ghost var at;
          found, at := DelBlock(cnode);
          assert at == k;
          return;
        }
        cnode := cnode.next;
        k := k + 1;
      }
      found := false;
    }
  }
}
