/** The log writer: a ring of blocks between the thread that inserts records and the thread that
    writes full blocks to a file. The ring grows in place when the producer catches up with the
    writer. An insert and a round of the writer are atomic here. */
module LazyWriter {
  import opened Bytes

  const BLOCK_SIZE := 8 * 1024 * 1024
  const INIT_CHAIN_SIZE := 10

  datatype Status = Free | Incomplete | Full

  class BufferNode {
    var status: Status
    const buf: array<byte>
    var next: BufferNode?

    constructor ()
      ensures status == Free && buf.Length == BLOCK_SIZE && fresh(buf) && next == null
    {
      status, next := Free, null;
      buf := new byte[BLOCK_SIZE](_ => 0);
    }
  }

  ghost predicate Distinct(nodes: seq<BufferNode>) {
    forall i, j :: 0 <= i < j < |nodes| ==> nodes[i] != nodes[j] && nodes[i].buf != nodes[j].buf
  }

  lemma {:induction false} DistinctRotates(nodes: seq<BufferNode>)
    requires nodes != [] && Distinct(nodes)
    ensures Distinct(nodes[1..] + [nodes[0]])
  {
    var r := nodes[1..] + [nodes[0]];
    forall i, j | 0 <= i < j < |r|
      ensures r[i] != r[j] && r[i].buf != r[j].buf
    {
      assert r[i] == nodes[i + 1];
      assert r[j] == if j + 1 < |r| then nodes[j + 1] else nodes[0];
    }
  }

  /** The full blocks one after the other. */
  ghost function Flat(blocks: seq<seq<byte>>): (b: seq<byte>)
  {
    if blocks == [] then [] else blocks[0] + Flat(blocks[1..])
  }

  lemma {:induction false} FlatAppend(blocks: seq<seq<byte>>, b: seq<byte>)
    ensures Flat(blocks + [b]) == Flat(blocks) + b
    decreases |blocks|
  {
    if blocks == [] {
      assert blocks + [b] == [b];
      assert Flat([b]) == b + Flat([]);
    } else {
      assert (blocks + [b])[1..] == blocks[1..] + [b];
      FlatAppend(blocks[1..], b);
      assert blocks[0] + (Flat(blocks[1..]) + b) == blocks[0] + Flat(blocks[1..]) + b;
    }
  }

  /** The first full block moves to the file. */
  lemma {:induction false} BlockWritten(file: seq<byte>, blocks: seq<seq<byte>>, rest: seq<byte>)
    requires blocks != [] && |blocks[0]| == BLOCK_SIZE && |file| % BLOCK_SIZE == 0
    ensures file + Flat(blocks) + rest == file + blocks[0] + Flat(blocks[1..]) + rest
    ensures |file + blocks[0]| % BLOCK_SIZE == 0
  {
    assert file + (blocks[0] + Flat(blocks[1..])) == file + blocks[0] + Flat(blocks[1..]);
  }

  lemma {:induction false} WholeBlocks(file: seq<byte>, rest: seq<byte>)
    requires |file| % BLOCK_SIZE == 0 && |rest| < BLOCK_SIZE
    ensures var all := file + rest; file == all[..|all| - |all| % BLOCK_SIZE]
  {
    var all := file + rest;
    assert |all| % BLOCK_SIZE == |rest|;
    assert all[..|file|] == file;
  }

  /** The position behind `i` in a ring of `n`. */
  function Behind(i: nat, n: nat): nat {
    if i + 1 < n then i + 1 else 0
  }

  class LazyWriter {
    var size: nat
    var current: BufferNode
    var currentIndex: nat
    var running: bool
    var curr: BufferNode                  // the writer's node
    var file: seq<byte>

    ghost var nodes: seq<BufferNode>      // the ring, from the writer's node on
    ghost var blocks: seq<seq<byte>>      // what the full nodes hold
    ghost var inserted: seq<byte>         // everything that was ever inserted

    ghost function Buffers(): set<object>
      reads this, nodes
    {
      set n | n in nodes :: n.buf
    }

    /** The nodes form one cycle. From the writer's node on come the full ones, then the free ones;
        the producer's is number `c`. */
    ghost predicate Ring(c: nat)
      reads this, nodes
    {
      && size == |nodes| && |blocks| <= |nodes| && c < |nodes|
      && Distinct(nodes)
      && (forall i :: 0 <= i < |nodes| ==> nodes[i].buf.Length == BLOCK_SIZE)
      && (forall i :: 0 <= i < |nodes| ==> nodes[i].next == nodes[Behind(i, |nodes|)])
      && (forall i :: 0 <= i < |nodes| ==> nodes[i].status == if i < |blocks| then Full else Free)
      && curr == nodes[0] && current == nodes[c]
    }

    /** What the full nodes hold. */
    ghost predicate Filled()
      reads this, nodes, set n | n in nodes :: n.buf
    {
      |blocks| <= |nodes| && forall i :: 0 <= i < |blocks| ==> nodes[i].buf[..] == blocks[i]
    }

    /** The producer's node is the first free one; and what has been inserted is what has been
        written, then the full blocks, then the beginning of the producer's block. */
    ghost predicate Accounted()
      reads this, nodes, set n | n in nodes :: n.buf
    {
      && Ring(|blocks|) && Filled() && currentIndex <= BLOCK_SIZE
      && |file| % BLOCK_SIZE == 0
      && inserted == file + Flat(blocks) + current.buf[..currentIndex]
    }

    ghost predicate Valid()
      reads this, nodes, set n | n in nodes :: n.buf
    {
      Accounted() && currentIndex < BLOCK_SIZE
    }

    constructor ()
      ensures Valid() && forall n: BufferNode :: n in nodes ==> fresh(n) && fresh(n.buf)
      ensures inserted == [] && file == [] && running && size == INIT_CHAIN_SIZE
    {
      var first := new BufferNode();
      running, size, currentIndex, file := true, INIT_CHAIN_SIZE, 0, [];
      current, curr := first, first;
      nodes, blocks, inserted := [first], [], [];
      new;
      for i := 1 to INIT_CHAIN_SIZE
        invariant |nodes| == i && fresh(nodes) && current == nodes[i - 1] && curr == nodes[0] && first == nodes[0]
        invariant forall k :: 0 <= k < i ==>
                    nodes[k].buf.Length == BLOCK_SIZE && nodes[k].status == Free && fresh(nodes[k].buf)
        invariant forall k, l :: 0 <= k < l < i ==> nodes[k] != nodes[l] && nodes[k].buf != nodes[l].buf
        invariant forall k :: 0 <= k < i && i > 1 ==> nodes[k].next == nodes[Behind(k, i)]
        invariant running && size == INIT_CHAIN_SIZE && currentIndex == 0
        invariant file == [] && blocks == [] && inserted == []
      {
        var newNode := new BufferNode();
        current.next := newNode;
        newNode.next := first;
        nodes := nodes + [newNode];
        current := newNode;
      }
      current := first;
    }

    /** The nodes of the ring, before and after: none is lost, and at most one is new. */
    twostate predicate Grown()
      reads this
    {
      && |old(nodes)| <= |nodes| <= |old(nodes)| + 1
      && (forall n :: n in old(nodes) ==> n in nodes)
      && (forall n: BufferNode :: n in nodes ==> n in old(nodes) || (fresh(n) && fresh(n.buf)))
    }

    /** A record is copied behind the last one. With the last byte of a block the producer moves
        on, to the next node or to a new one. The branch of the code that exits is never taken:
        the producer's node is free. */
    method Insert(record: seq<byte>)
      requires Valid() && currentIndex + |record| <= BLOCK_SIZE
      modifies this, nodes, Buffers()
      ensures Valid() && Grown()
      ensures inserted == old(inserted) + record && file == old(file) && running == old(running)
    {
      assert current.status == Free;
      CopyIn(record);
      if currentIndex == BLOCK_SIZE {
        NextBlock();
      }
    }

    /** The memcpy of a record. */
    method CopyIn(record: seq<byte>)
      requires Valid() && currentIndex + |record| <= BLOCK_SIZE
      modifies this`currentIndex, this`inserted, current.buf
      ensures Accounted()
      ensures inserted == old(inserted) + record
    {
      var at := currentIndex;
      forall k | at <= k < at + |record| {
        current.buf[k] := record[k - at];
      }
      currentIndex := at + |record|;
      inserted := inserted + record;
      assert current.buf[..currentIndex] == old(current.buf[..currentIndex]) + record;
    }

    /** The producer's block is full. */
    method MarkFull()
      requires Accounted() && currentIndex == BLOCK_SIZE
      modifies this`currentIndex, this`blocks, current`status
      ensures |blocks| > 0 && Ring(|blocks| - 1) && Filled() && currentIndex == 0 && inserted == file + Flat(blocks)
    {
      FlatAppend(blocks, current.buf[..]);
      assert current.buf[..BLOCK_SIZE] == current.buf[..];
      assert file + Flat(blocks) + current.buf[..] == file + (Flat(blocks) + current.buf[..]);
      currentIndex := 0;
      blocks := blocks + [current.buf[..]];
      current.status := Full;
    }

    /** The producer leaves a full block. */
    method NextBlock()
      requires Accounted() && currentIndex == BLOCK_SIZE
      modifies this`currentIndex, this`current, this`size, this`nodes, this`blocks, nodes
      ensures Valid() && Grown()
    {
      MarkFull();
      if current.next.status == Free {
        current := current.next;
      } else {
        assert |blocks| == |nodes|;
        AddNode();
      }
    }

    /** All nodes are full: a new one is put between the producer's and the writer's. */
    method AddNode()
      requires 0 < |blocks| == |nodes| && Ring(|blocks| - 1) && Filled()
      modifies this`current, this`size, this`nodes, current`next
      ensures Ring(|blocks|) && Filled()
      ensures exists n: BufferNode :: fresh(n) && fresh(n.buf) && nodes == old(nodes) + [n]
    {
      var newNode := new BufferNode();
      newNode.next := current.next;
      current.next := newNode;
      nodes := nodes + [newNode];
      current := newNode;
      size := size + 1;
    }

    /** One round of the writer: a full block goes to the file. */
    method WriterRound()
      requires Valid()
      modifies this`file, this`curr, this`nodes, this`blocks, curr`status
      ensures Valid() && inserted == old(inserted)
      ensures if old(blocks) != [] then
                && file == old(file + blocks[0]) && blocks == old(blocks)[1..]
                && nodes == old(nodes[1..] + [nodes[0]])
              else
                file == old(file) && blocks == [] && nodes == old(nodes)
    {
      if curr.status == Full {
        BlockWritten(file, blocks, current.buf[..currentIndex]);
        file := file + curr.buf[..];
        Leave();
      }
    }

    /** The writer leaves a block that it has written. */
    method Leave()
      requires Ring(|blocks|) && Filled() && blocks != []
      modifies this`curr, this`nodes, this`blocks, curr`status
      ensures Ring(|blocks|) && Filled()
      ensures blocks == old(blocks)[1..] && nodes == old(nodes[1..] + [nodes[0]])
    {
      ghost var before := nodes;
      curr.status := Free;
      curr := curr.next;
      nodes := nodes[1..] + [nodes[0]];
      blocks := blocks[1..];
      DistinctRotates(before);
      forall i | 0 <= i < |nodes|
        ensures nodes[i].next == nodes[Behind(i, |nodes|)] && nodes[i].buf.Length == BLOCK_SIZE
        ensures nodes[i].status == if i < |blocks| then Full else Free
        ensures i < |blocks| ==> nodes[i].buf[..] == blocks[i]
      {
        assert nodes[i] == before[Behind(i, |nodes|)];
        assert nodes[Behind(i, |nodes|)] == before[Behind(Behind(i, |nodes|), |nodes|)];
      }
    }

    /** LazyWriter::terminate */
    method Terminate()
      requires Valid()
      modifies this`running
      ensures Valid() && !running && inserted == old(inserted) && nodes == old(nodes)
    {
      running := false;
    }

    /** The writer's loop after the end of the producer: it ends with every full block in the file,
        and the beginning of the last block is never written. */
    method WriterLoop()
      requires Valid() && !running
      modifies this`file, this`curr, this`nodes, this`blocks, nodes
      ensures Valid() && inserted == old(inserted)
      ensures file == inserted[..|inserted| - |inserted| % BLOCK_SIZE]
    {
      while running || curr.status != Free
        invariant Valid() && !running && inserted == old(inserted)
        invariant forall n :: n in nodes ==> n in old(nodes)
        decreases |blocks|
      {
        assert curr in nodes;
        WriterRound();
      }
      assert blocks == [];
      WholeBlocks(file, current.buf[..currentIndex]);
    }
  }

  datatype Operation = InsertRecord(record: seq<byte>) | WriteRound

  /** The records of the operations, one after the other. */
  function Records(operations: seq<Operation>): seq<byte> {
    if operations == [] then []
    else
      var front, last := operations[..|operations| - 1], operations[|operations| - 1];
      match last
      case InsertRecord(record) => Records(front) + record
      case WriteRound => Records(front)
  }

  /** What the caller has to see to: every record ends in the block in which it begins. */
  predicate NeverStraddles(operations: seq<Operation>) {
    operations != [] ==>
      var front, last := operations[..|operations| - 1], operations[|operations| - 1];
      && NeverStraddles(front)
      && (last.InsertRecord? ==> |Records(front)| % BLOCK_SIZE + |last.record| <= BLOCK_SIZE)
  }

  lemma {:induction false} FlatIsWhole(blocks: seq<seq<byte>>)
    requires forall i :: 0 <= i < |blocks| ==> |blocks[i]| == BLOCK_SIZE
    ensures |Flat(blocks)| % BLOCK_SIZE == 0
  {
    if blocks != [] {
      FlatIsWhole(blocks[1..]);
    }
  }

  /** The producer's position, from what has been inserted. */
  lemma PositionOf(log: LazyWriter)
    requires log.Valid()
    ensures log.currentIndex == |log.inserted| % BLOCK_SIZE
  {
    forall i | 0 <= i < |log.blocks|
      ensures |log.blocks[i]| == BLOCK_SIZE
    {
      assert log.nodes[i].buf[..] == log.blocks[i];
    }
    FlatIsWhole(log.blocks);
  }

  /** Any interleaving of inserts and rounds of the writer, on a new log. Whatever the interleaving,
      what is in the file is the beginning of the records, in whole blocks; and when the writer is
      let finish, all whole blocks are in the file. */
  method History(operations: seq<Operation>) returns (during: seq<byte>, after: seq<byte>)
    requires NeverStraddles(operations)
    ensures during <= Records(operations) && |during| % BLOCK_SIZE == 0
    ensures var all := Records(operations); after == all[..|all| - |all| % BLOCK_SIZE]
  {
    var log := new LazyWriter();
    PerformAll(log, operations);
    during := log.file;
    log.Terminate();
    log.WriterLoop();
    after := log.file;
  }

  method PerformAll(log: LazyWriter, operations: seq<Operation>)
    requires log.Valid() && log.inserted == [] && NeverStraddles(operations)
    modifies log, log.nodes, log.Buffers()
    ensures log.Valid() && log.inserted == Records(operations)
    ensures forall n: BufferNode :: n in log.nodes ==> n in old(log.nodes) || (fresh(n) && fresh(n.buf))
    decreases |operations|
  {
    if operations != [] {
      PerformAll(log, operations[..|operations| - 1]);
      match operations[|operations| - 1] {
        case InsertRecord(record) =>
          PositionOf(log);
          log.Insert(record);
        case WriteRound =>
          assert log.curr in log.nodes;
          log.WriterRound();
      }
    }
  }
}
