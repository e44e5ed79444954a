/**
 An open file as a stream: what `sys_write` and `sys_read` do to one node and one offset
 (kernel/syscall.c:71-83, 103-110).
 */
module FileStream {
  import opened RamTree

  datatype Stream = Stream(node: Node, offset: nat)

  predicate InRange(s: Stream) {
    |s.node.data| == DATA_MAX && s.node.size <= DATA_MAX && s.offset <= DATA_MAX
  }

  function Bytes(n: Node): seq<char>
    requires n.size <= |n.data|
  {
    n.data[..n.size]
  }

  function Upto(s: seq<char>, n: nat): seq<char> { if |s| <= n then s else s[..n] }

  function Put(data: seq<char>, at: nat, bytes: seq<char>): (r: seq<char>)
    requires at + |bytes| <= |data|
    ensures |r| == |data|
    ensures forall i :: 0 <= i < |data| ==> r[i] == if at <= i < at + |bytes| then bytes[i - at] else data[i]
  {
    data[..at] + bytes + data[at + |bytes|..]
  }

  // One sys_write on a file
  function Written(s: Stream, buf: seq<char>): (r: Stream)
    requires InRange(s)
    ensures InRange(r)
  {
    if |buf| == 0 then s
    else
      var bytes := Upto(buf, DATA_MAX - s.offset);
      var end := s.offset + |bytes|;
      var size := if end > s.node.size then end else s.node.size;
      Stream(s.node.(data := Put(s.node.data, s.offset, bytes), size := size), end)
  }

  function WriteAll(s: Stream, chunks: seq<seq<char>>): (r: Stream)
    requires InRange(s)
    ensures InRange(r)
    decreases |chunks|
  {
    if |chunks| == 0 then s else WriteAll(Written(s, chunks[0]), chunks[1..])
  }

  function Flat(chunks: seq<seq<char>>): seq<char> {
    if |chunks| == 0 then [] else chunks[0] + Flat(chunks[1..])
  }

  lemma PutTwice(data: seq<char>, at: nat, a: seq<char>, b: seq<char>)
    requires at + |a| + |b| <= |data|
    ensures Put(Put(data, at, a), at + |a|, b) == Put(data, at, a + b)
  {
  }

  lemma UptoSplit(a: seq<char>, b: seq<char>, n: nat)
    ensures Upto(a + b, n) == Upto(a, n) + Upto(b, n - |Upto(a, n)|)
  {
  }

  // Two writes are one write of both buffers.
  lemma WrittenTwice(s: Stream, a: seq<char>, b: seq<char>)
    requires InRange(s)
    ensures Written(Written(s, a), b) == Written(s, a + b)
  {
    if |a| == 0 {
      assert a + b == b;
    } else if |b| == 0 {
      assert a + b == a;
    } else {
      var room := DATA_MAX - s.offset;
      UptoSplit(a, b, room);
      PutTwice(s.node.data, s.offset, Upto(a, room), Upto(b, room - |Upto(a, room)|));
    }
  }

  /** How a client cuts its output into writes does not matter. */
  lemma {:induction false} WriteChunks(s: Stream, chunks: seq<seq<char>>)
    requires InRange(s)
    ensures WriteAll(s, chunks) == Written(s, Flat(chunks))
    decreases |chunks|
  {
    if |chunks| > 0 {
      WriteChunks(Written(s, chunks[0]), chunks[1..]);
      WrittenTwice(s, chunks[0], Flat(chunks[1..]));
    }
  }

  lemma {:induction false} WriteAllAppend(s: Stream, chunks: seq<seq<char>>, x: seq<char>)
    requires InRange(s)
    ensures WriteAll(s, chunks + [x]) == Written(WriteAll(s, chunks), x)
    decreases |chunks|
  {
    if |chunks| == 0 {
      assert ([x])[1..] == [];
    } else {
      assert (chunks + [x])[1..] == chunks[1..] + [x];
      WriteAllAppend(Written(s, chunks[0]), chunks[1..], x);
    }
  }

  /** What a run of writes does to the bytes of the file: everything up to byte 4096 is stored at the
      offset, and what follows it stays. From an empty file this is the concatenation, cut. */
  lemma StreamWritten(s: Stream, chunks: seq<seq<char>>)
    requires InRange(s) && s.offset <= s.node.size
    ensures var r, all := WriteAll(s, chunks), Upto(Flat(chunks), DATA_MAX - s.offset);
      && r.offset == s.offset + |all| <= r.node.size
      && Bytes(r.node) == Bytes(s.node)[..s.offset] + all +
                          (if r.offset < s.node.size then Bytes(s.node)[r.offset..] else [])
  {
    WriteChunks(s, chunks);
    WrittenBytes(s, Flat(chunks));
  }

  // The bytes after one write
  lemma WrittenBytes(s: Stream, buf: seq<char>)
    requires InRange(s) && s.offset <= s.node.size
    ensures var r, all := Written(s, buf), Upto(buf, DATA_MAX - s.offset);
      && r.offset == s.offset + |all| <= r.node.size
      && Bytes(r.node) == Bytes(s.node)[..s.offset] + all +
                          (if r.offset < s.node.size then Bytes(s.node)[r.offset..] else [])
  {
    if |buf| == 0 {
      assert Bytes(s.node) == Bytes(s.node)[..s.offset] + Bytes(s.node)[s.offset..];
    } else {
      PutBytes(s.node.data, s.node.size, s.offset, Upto(buf, DATA_MAX - s.offset));
    }
  }

  lemma PutBytes(data: seq<char>, size: nat, at: nat, b: seq<char>)
    requires at <= size <= |data| && at + |b| <= |data|
    ensures var end := at + |b|;
      Put(data, at, b)[..if end > size then end else size] ==
      data[..size][..at] + b + (if end < size then data[..size][end..] else [])
  {
  }

  lemma FreshWritten(s: Stream, chunks: seq<seq<char>>)
    requires InRange(s) && s.offset == 0 && s.node.size == 0
    ensures Bytes(WriteAll(s, chunks).node) == Upto(Flat(chunks), DATA_MAX)
  {
    StreamWritten(s, chunks);
  }

  // ----- Reading -----

  // One sys_read on a file whose offset is inside it
  function Next(s: Stream, count: nat): seq<char>
    requires InRange(s) && s.offset <= s.node.size
  {
    Upto(Bytes(s.node)[s.offset..], count)
  }

  lemma NextIs(s: Stream, count: nat, n: nat)
    requires InRange(s) && s.offset <= s.node.size
    requires n == if count < s.node.size - s.offset then count else s.node.size - s.offset
    ensures Next(s, count) == s.node.data[s.offset..s.offset + n]
  {
    var rest := Bytes(s.node)[s.offset..];
    assert |rest| == s.node.size - s.offset;
    assert forall i :: 0 <= i < |rest| ==> rest[i] == s.node.data[s.offset + i];
  }

  function After(s: Stream, count: nat): (r: Stream)
    requires InRange(s) && s.offset <= s.node.size
    ensures InRange(r) && r.node == s.node && s.offset <= r.offset <= r.node.size
  {
    Stream(s.node, s.offset + |Next(s, count)|)
  }

  function Pieces(s: Stream, counts: seq<nat>): seq<seq<char>>
    requires InRange(s) && s.offset <= s.node.size
    decreases |counts|
  {
    if |counts| == 0 then [] else [Next(s, counts[0])] + Pieces(After(s, counts[0]), counts[1..])
  }

  function Sum(counts: seq<nat>): nat {
    if |counts| == 0 then 0 else counts[0] + Sum(counts[1..])
  }

  lemma UptoTwice(a: seq<char>, m: nat, n: nat)
    ensures Upto(a, m) + Upto(a[|Upto(a, m)|..], n) == Upto(a, m + n)
  {
  }

  /** Reads of any sizes return consecutive pieces of the file. */
  lemma {:induction false} ReadPieces(s: Stream, counts: seq<nat>)
    requires InRange(s) && s.offset <= s.node.size
    ensures Flat(Pieces(s, counts)) == Upto(Bytes(s.node)[s.offset..], Sum(counts))
    decreases |counts|
  {
    if |counts| > 0 {
      var next, rest := After(s, counts[0]), Bytes(s.node)[s.offset..];
      var pieces := Pieces(s, counts);
      assert pieces[1..] == Pieces(next, counts[1..]);
      ReadPieces(next, counts[1..]);
      assert Bytes(s.node)[next.offset..] == rest[|Next(s, counts[0])|..];
      UptoTwice(rest, counts[0], Sum(counts[1..]));
    } else {
      assert Upto(Bytes(s.node)[s.offset..], 0) == [];
    }
  }
}
