// Byte streams with a cursor: what std::ostream and std::istream give the
// archive code.
module Streams {
  import opened Bytes

  // Writing at a position replaces what is there and extends the data as needed.
  function Overwrite(data: seq<Byte>, pos: nat, bytes: seq<Byte>): (r: seq<Byte>)
    requires pos <= |data|
    ensures pos + |bytes| <= |r|
  {
    data[..pos] + bytes + (if pos + |bytes| <= |data| then data[pos + |bytes|..] else [])
  }

  // A write changes the bytes it covers and no others.
  lemma OverwriteAt(data: seq<Byte>, pos: nat, bytes: seq<Byte>, k: nat)
    requires pos <= |data|
    ensures |Overwrite(data, pos, bytes)| == if pos + |bytes| <= |data| then |data| else pos + |bytes|
    ensures pos <= k < pos + |bytes| ==> Overwrite(data, pos, bytes)[k] == bytes[k - pos]
    ensures k < |data| && !(pos <= k < pos + |bytes|) ==> Overwrite(data, pos, bytes)[k] == data[k]
  {
  }

  // Two writes in a row are one write of the concatenation.
  lemma OverwriteTwice(data: seq<Byte>, pos: nat, a: seq<Byte>, b: seq<Byte>)
    requires pos <= |data|
    ensures Overwrite(Overwrite(data, pos, a), pos + |a|, b) == Overwrite(data, pos, a + b)
  {
  }

  // Rewriting a stretch in the middle of what was just written.
  lemma OverwriteInside(data: seq<Byte>, pos: nat, a: seq<Byte>, b: seq<Byte>, c: seq<Byte>, b': seq<Byte>)
    requires pos <= |data| && |b| == |b'|
    ensures Overwrite(Overwrite(data, pos, a + b + c), pos + |a|, b') == Overwrite(data, pos, a + b' + c)
  {
  }

  class OutputStream {
    var data: seq<Byte>
    var pos: nat

    ghost predicate Valid()
      reads this
    {
      pos <= |data|
    }

    constructor (initial: seq<Byte>)
      ensures Valid() && data == initial && pos == |initial|
    {
      data, pos := initial, |initial|;
    }

    method Write(bytes: seq<Byte>)
      requires Valid()
      modifies this
      ensures Valid() && pos == old(pos) + |bytes|
      ensures data == Overwrite(old(data), old(pos), bytes)
    {
      data := data[..pos] + bytes + (if pos + |bytes| <= |data| then data[pos + |bytes|..] else []);
      pos := pos + |bytes|;
    }

    method Seek(target: nat)
      requires Valid() && target <= |data|
      modifies this`pos
      ensures Valid() && pos == target
    {
      pos := target;
    }
  }

  // The stream holds `base` with `bytes` written from position `at`, and the
  // cursor is behind them.
  ghost predicate Wrote(output: OutputStream, base: seq<Byte>, at: nat, bytes: seq<Byte>)
    reads output
  {
    && at <= |base|
    && output.pos == at + |bytes|
    && output.data == Overwrite(base, at, bytes)
  }

  lemma NothingWritten(base: seq<Byte>, at: nat)
    requires at <= |base|
    ensures Overwrite(base, at, []) == base
  {
  }

  method Append(output: OutputStream, bytes: seq<Byte>, ghost base: seq<Byte>, ghost at: nat, ghost before: seq<Byte>)
    requires Wrote(output, base, at, before)
    modifies output
    ensures Wrote(output, base, at, before + bytes)
  {
    OverwriteTwice(base, at, before, bytes);
    output.Write(bytes);
  }

  // Going back to rewrite `field`, which lies behind `front`, and returning.
  method Patch(output: OutputStream, target: nat, bytes: seq<Byte>,
               ghost base: seq<Byte>, ghost at: nat, ghost front: seq<Byte>,
               ghost field: seq<Byte>, ghost rest: seq<Byte>)
    requires Wrote(output, base, at, front + field + rest) && |bytes| == |field| && target == at + |front|
    modifies output
    ensures Wrote(output, base, at, front + bytes + rest)
  {
    OverwriteInside(base, at, front, field, rest, bytes);
    var current := output.pos;
    output.Seek(target);
    output.Write(bytes);
    output.Seek(current);
  }

  // The position of an input stream and its fail bit.
  datatype Cursor = Cursor(pos: nat, failed: bool)

  // What a read of `count` bytes leaves in a zero-initialised buffer.
  function ReadBytes(data: seq<Byte>, at: Cursor, count: nat): (r: seq<Byte>)
    ensures |r| == count
  {
    if at.failed || at.pos >= |data| then Zeros(count)
    else if at.pos + count <= |data| then data[at.pos..at.pos + count]
    else data[at.pos..] + Zeros(at.pos + count - |data|)
  }

  // Where the read leaves the cursor: a short read sets the fail bit.
  function AfterRead(data: seq<Byte>, at: Cursor, count: nat): Cursor {
    if at.failed then at
    else if at.pos + count <= |data| then Cursor(at.pos + count, false)
    else Cursor(if at.pos < |data| then |data| else at.pos, true)
  }

  function AfterSeek(at: Cursor, target: nat): Cursor {
    if at.failed then at else Cursor(target, false)
  }

  // A read takes what is there and leaves the rest of the buffer zero; if the data end
  // inside it, or the stream has failed before, the stream has failed.
  lemma ReadAt(data: seq<Byte>, at: Cursor, count: nat, k: nat)
    requires k < count
    ensures ReadBytes(data, at, count)[k] == if !at.failed && at.pos + k < |data| then data[at.pos + k] else 0
    ensures AfterRead(data, at, count).failed <==> at.failed || at.pos + count > |data|
    ensures !AfterRead(data, at, count).failed ==> AfterRead(data, at, count).pos == at.pos + count
  {
  }

  class InputStream {
    const data: seq<Byte>
    var cursor: Cursor

    constructor (data: seq<Byte>)
      ensures this.data == data && cursor == Cursor(0, false)
    {
      this.data := data;
      cursor := Cursor(0, false);
    }

    method Read(count: nat) returns (r: seq<Byte>)
      modifies this
      ensures r == ReadBytes(data, old(cursor), count)
      ensures cursor == AfterRead(data, old(cursor), count)
    {
      r := ReadBytes(data, cursor, count);
      cursor := AfterRead(data, cursor, count);
    }

    // `std::copy_n` from the stream. Its iterator moves on only between two bytes, so
    // it is left on the last one.
    method CopyN(count: nat) returns (r: seq<Byte>)
      requires !cursor.failed && cursor.pos + count <= |data|
      modifies this
      ensures r == data[old(cursor).pos..old(cursor).pos + count]
      ensures cursor == Cursor(if count == 0 then old(cursor).pos else old(cursor).pos + count - 1, false)
    {
      r := data[cursor.pos..cursor.pos + count];
      if count > 0 {
        cursor := Cursor(cursor.pos + count - 1, false);
      }
    }

    method Seek(target: nat)
      modifies this
      ensures cursor == AfterSeek(old(cursor), target)
    {
      cursor := AfterSeek(cursor, target);
    }

    method Skip(count: nat)
      modifies this
      ensures cursor == AfterSeek(old(cursor), old(cursor).pos + count)
    {
      cursor := AfterSeek(cursor, cursor.pos + count);
    }
  }
}
