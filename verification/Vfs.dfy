/**
  The file list of fs/vfs.c: nodes in a linked list, newest first, their data somewhere in memory.
 */
module Vfs {
  import opened CStrings
  import opened Sequences

  const MAX_FILENAME: nat := 128

  /** A node as its clients see it. */
  datatype File = File(name: seq<Byte>, size: nat, isDir: bool, data: nat)

  class Node {
    /** All MAX_FILENAME bytes. */
    var name: seq<Byte>
    var size: nat
    var isDir: bool
    var data: nat
    var next: Node?

    constructor (name: seq<Byte>, size: nat, isDir: bool, data: nat)
      ensures View() == File(CString(name), size, isDir, data) && this.name == name
    {
      this.name, this.size, this.isDir, this.data, next := name, size, isDir, data, null;
    }

    ghost function View(): File
      reads this
    {
      File(CString(name), size, isDir, data)
    }
  }

  /** The newest file of a name. */
  function Lookup(files: seq<File>, name: seq<Byte>): (i: nat)
    ensures i <= |files|
    ensures i < |files| ==> files[i].name == name
    ensures forall j | 0 <= j < i :: files[j].name != name
  {
    if files == [] || files[0].name == name then 0 else 1 + Lookup(files[1..], name)
  }

  ghost function Views(nodes: seq<Node>): (files: seq<File>)
    reads nodes
    ensures |files| == |nodes|
  {
    seq(|nodes|, i requires 0 <= i < |nodes| reads nodes => nodes[i].View())
  }

  function NodeAt(nodes: seq<Node>, i: nat): Node? {
    if i < |nodes| then nodes[i] else null
  }

  ghost predicate LinkOk(nodes: seq<Node>, i: nat)
    requires i < |nodes|
    reads nodes
  {
    nodes[i].next == NodeAt(nodes, i + 1)
  }

  class FileList {
    /** `vfs_root` */
    var root: Node?

    ghost var nodes: seq<Node>

    ghost predicate Valid()
      reads this, nodes
    {
      && (forall n | n in nodes :: Terminated(n.name))
      && root == NodeAt(nodes, 0)
      && forall i: nat | i < |nodes| :: LinkOk(nodes, i)
    }

    ghost function View(): seq<File>
      reads this, nodes
    {
      Views(nodes)
    }

    /** `vfs_init` */
    constructor ()
      ensures Valid() && View() == [] && nodes == []
    {
      root := null;
      nodes := [];
    }

    /** `vfs_register_node`, with the name at an address in memory. */
    method Register(memory: array<Byte>, name: nat, size: nat, isDir: bool, data: nat)
      requires Valid() && Readable(memory[..], name, MAX_FILENAME - 1)
      modifies this
      ensures Valid() && nodes != [] && fresh(nodes[0]) && nodes[1..] == old(nodes)
      ensures View() == [File(CString(Piece(memory[..], name, 127)), size, isDir, data)] + old(View())
    {
      hide Terminated;
      hide CString;
      var buffer := new Byte[MAX_FILENAME];
      Strncpy(buffer, memory, name, MAX_FILENAME - 1);
      ghost var copied := buffer[..];
      buffer[MAX_FILENAME - 1] := NUL;
      assert buffer[..][..MAX_FILENAME - 1] == copied[..MAX_FILENAME - 1];
      ClosedName(buffer[..]);
      var node := new Node(buffer[..], size, isDir, data);
      Prepend(node);
    }

    method Prepend(node: Node)
      requires Valid() && node !in nodes && Terminated(node.name)
      modifies this, node`next
      ensures Valid() && nodes == [node] + old(nodes) && View() == [old(node.View())] + old(View())
    {
      hide Terminated;
      hide CString;
      ghost var before := nodes;
      node.next := root;
      root := node;
      nodes := [node] + nodes;
      forall i: nat | i < |nodes|
        ensures LinkOk(nodes, i)
      {
        assert i > 0 ==> nodes[i] == before[i - 1] && LinkOk(before, i - 1);
      }
      assert Views(nodes) == [old(node.View())] + old(Views(before));
    }

    /** `vfs_open`: the newest node of that name, if there is one. */
    method Open(name: seq<Byte>) returns (r: Node?)
      requires Valid() && Terminated(name)
      ensures r == NodeAt(nodes, Lookup(View(), CString(name)))
    {
      hide Terminated;
      hide CString;
      var current := root;
      ghost var i := 0;
      while current != null
        invariant Valid() && i <= |nodes| && current == NodeAt(nodes, i)
        invariant forall j | 0 <= j < i :: View()[j].name != CString(name)
        decreases |nodes| - i
      {
        var c := Strcmp(current.name, name);
        assert View()[i].name == CString(current.name);
        if c == 0 {
          return current;
        }
        assert LinkOk(nodes, i);
        current := current.next;
        i := i + 1;
      }
      return null;
    }
  }

  lemma ClosedName(s: seq<Byte>)
    requires |s| == MAX_FILENAME && s[MAX_FILENAME - 1] == NUL
    ensures Terminated(s) && CString(s) == CString(s[..MAX_FILENAME - 1])
  {
    var c := CString(s[..MAX_FILENAME - 1]);
    CStringIs(s, c);
  }

  // ---------- reading ----------

  /** What a read of `size` bytes at `offset` returns: as much of the content as there is. */
  function Chunk(content: seq<Byte>, offset: nat, size: nat): (r: seq<Byte>)
    ensures |r| <= size && (offset <= |content| ==> offset + |r| <= |content|)
  {
    if offset >= |content| then [] else
      content[offset..offset + (if size < |content| - offset then size else |content| - offset)]
  }

  /** `vfs_read` */
  method Read(memory: array<Byte>, node: Node?, buffer: array<Byte>, size: nat, offset: nat) returns (r: nat)
    requires node != null ==> node.data + node.size <= memory.Length
    requires size <= buffer.Length && buffer != memory
    modifies buffer
    ensures node == null || node.isDir ==> r == 0
    ensures node != null && !node.isDir ==>
              && r == (if offset >= node.size then 0 else if size < node.size - offset then size else node.size - offset)
              && r <= buffer.Length && (r > 0 ==> buffer[..r] == memory[node.data + offset..node.data + offset + r])
    ensures node != null && !node.isDir ==>
              && r == |Chunk(memory[node.data..node.data + node.size], offset, size)| <= buffer.Length
              && buffer[..r] == Chunk(memory[node.data..node.data + node.size], offset, size)
    ensures forall i | r <= i < buffer.Length :: buffer[i] == old(buffer[i])
  {
    hide Chunk;
    if node != null {
      ChunkIs(memory[..], node.data, node.size, offset, size);
    }
    if node == null || node.isDir || offset >= node.size {
      return 0;
    }
    var available := node.size - offset;
    var toRead := if size < available then size else available;
    for i := 0 to toRead
      invariant buffer[..i] == memory[node.data + offset..node.data + offset + i]
      invariant forall j | i <= j < buffer.Length :: buffer[j] == old(buffer[j])
    {
      buffer[i] := memory[node.data + offset + i];
    }
    assert memory[node.data..node.data + node.size] == memory[..][node.data..node.data + node.size];
    return toRead;
  }

  /** A chunk of a content that lies in memory. */
  lemma ChunkIs(memory: seq<Byte>, start: nat, length: nat, offset: nat, size: nat)
    requires start + length <= |memory|
    ensures Chunk(memory[start..start + length], offset, size) ==
            if offset >= length then []
            else memory[start + offset..start + offset + (if size < length - offset then size else length - offset)]
  {
    if offset < length {
      SliceOfSlice(memory, start, length, offset, if size < length - offset then size else length - offset);
    }
  }

  /** Reads of the given sizes one after the other, each from where the last one ended. */
  function ReadOn(content: seq<Byte>, offset: nat, sizes: seq<nat>): seq<Byte>
    decreases |sizes|
  {
    if sizes == [] then []
    else
      var c := Chunk(content, offset, sizes[0]);
      c + ReadOn(content, offset + |c|, sizes[1..])
  }

  function Sum(sizes: seq<nat>): nat {
    if sizes == [] then 0 else sizes[0] + Sum(sizes[1..])
  }

  /** Successive chunks concatenate to the content, whatever their sizes. */
  lemma {:induction false} ChunksConcatenate(content: seq<Byte>, offset: nat, sizes: seq<nat>)
    requires offset <= |content|
    ensures ReadOn(content, offset, sizes) == Chunk(content, offset, Sum(sizes))
    decreases |sizes|
  {
    hide Chunk;
    if sizes != [] {
      var c := Chunk(content, offset, sizes[0]);
      ChunksConcatenate(content, offset + |c|, sizes[1..]);
      ChunkSplit(content, offset, sizes[0], Sum(sizes[1..]));
    }
  }

  lemma ChunkSplit(content: seq<Byte>, offset: nat, first: nat, second: nat)
    requires offset <= |content|
    ensures var c := Chunk(content, offset, first);
            c + Chunk(content, offset + |c|, second) == Chunk(content, offset, first + second)
  {
    var a := offset + |Chunk(content, offset, first)|;
    var b := a + |Chunk(content, a, second)|;
    assert content[offset..b] == content[offset..a] + content[a..b];
  }
}
