/** Buffered reading and writing of a file, against plain byte sequences. */
module Streams {
  import opened ByteBuffers
  import opened CStrings
  import opened Sequences

  const READER_EOF := -1
  const BUFFER_SIZE := 128
  const AT_END := 0xFFFF_FFFF

  /** An open file as the firmware shows it: a read returns at least one byte unless the file is at its
      end, and at most as many as asked for; a write is complete. */
  class EfiFile {
    var content: seq<byte>
    var position: nat

    ghost predicate Valid()
      reads this
    {
      position <= |content|
    }

    constructor (c: seq<byte>)
      ensures Valid() && content == c && position == 0
    {
      content, position := c, 0;
    }

    method Read(limit: nat) returns (data: seq<byte>)
      requires Valid() && limit > 0
      modifies this`position
      ensures Valid() && position == old(position) + |data| && |data| <= limit
      ensures data == content[old(position)..position]
      ensures data == [] <==> old(position) == |content|
    {
      if position == |content| {
        return [];
      }
      var n: nat :| 1 <= n <= limit && position + n <= |content|;
      data := content[position..position + n];
      position := position + n;
    }

    method Write(data: seq<byte>)
      requires Valid()
      modifies this
      ensures Valid() && content == Overwrite(old(content), old(position), data)
      ensures position == old(position) + |data|
    {
      content := content[..position] + data
                 + if position + |data| <= |content| then content[position + |data|..] else [];
      position := position + |data|;
    }

    method SetPosition(p: nat)
      requires p <= |content|
      modifies this`position
      ensures Valid() && position == p
    {
      position := p;
    }
  }

  /** Of the bytes that were to be read, these have been delivered and these not yet. */
  ghost predicate InRead(all: seq<byte>, out: seq<byte>, unread: seq<byte>) {
    |out| <= |all| && out == all[..|out|] && unread == all[|out|..]
  }

  lemma ReadOneMore(all: seq<byte>, out: seq<byte>, unread: seq<byte>)
    requires InRead(all, out, unread) && unread != []
    ensures InRead(all, out + [unread[0]], unread[1..])
  {
    OneMore(all, |out|);
  }

  class LReader {
    var size: nat
    var current: nat
    const buffer: array<byte>
    const Handle: EfiFile

    ghost predicate Valid()
      reads this, Handle
    {
      && buffer.Length == BUFFER_SIZE && Handle.Valid()
      && current < BUFFER_SIZE && (AtEnd() || current <= size < BUFFER_SIZE)
    }

    /** A byte is waiting, or the end has been seen. */
    ghost predicate Primed()
      reads this
    {
      AtEnd() || current < size
    }

    /** The bytes not yet consumed. */
    ghost function Unread(): seq<byte>
      requires Valid()
      reads this, buffer, Handle
    {
      if AtEnd() then [] else buffer[current..size] + Handle.content[Handle.position..]
    }

    constructor (handle: EfiFile)
      requires handle.Valid()
      ensures Valid() && Handle == handle && fresh(buffer)
      ensures !AtEnd() && current == size && Unread() == handle.content[handle.position..]
    {
      size, current := 0, 0;
      buffer := new byte[BUFFER_SIZE];
      Handle := handle;
    }

    predicate AtEnd()
      reads this
    {
      size == AT_END
    }

    method Reset()
      requires Valid()
      modifies this
      ensures Valid() && (old(AtEnd()) ==> AtEnd() && current == old(current))
      ensures !old(AtEnd()) ==> !AtEnd() && current == size == 0
    {
      if !AtEnd() {
        current, size := 0, 0;
      }
    }

    /** The refill; it is asked for only when the buffer has been used up. */
    method ReadBuffer() returns (ok: bool)
      requires Valid() && current == size && !AtEnd()
      modifies this`size, this`current, buffer, Handle`position
      ensures Valid() && !AtEnd() && current == 0 && ok == (size != 0)
      ensures Unread() == old(Unread()) && (ok <==> Unread() != [])
    {
      var data := Handle.Read(BUFFER_SIZE - 1);
      forall i | 0 <= i < |data| {
        buffer[i] := data[i];
      }
      current, size := 0, |data|;
      assert buffer[current..size] == data;
      assert data + Handle.content[Handle.position..] == old(Handle.content[Handle.position..]);
      assert old(buffer[current..size]) == [];
      ok := current != size;
    }

    /** Looking at the next byte consumes nothing; past the last byte the result means nothing. */
    method Current() returns (r: int)
      requires Valid()
      modifies this`size, this`current, buffer, Handle`position
      ensures Valid() && Primed() && Unread() == old(Unread())
      ensures !AtEnd() ==> r == Unread()[0]
      ensures if old(AtEnd()) then r == READER_EOF else 0 <= r < 0x100
      ensures old(Primed()) ==> size == old(size) && current == old(current)
      decreases if current == size then 2 else 0
    {
      if AtEnd() {
        return READER_EOF;
      }
      if current == size {
        var _ := Next();
      }
      r := buffer[current];
    }

    /** One byte is consumed, unless none was waiting yet; then the first one is fetched. */
    method Next() returns (r: int)
      requires Valid()
      modifies this`size, this`current, buffer, Handle`position
      ensures Valid() && Primed()
      ensures Unread() == if old(Primed() && !AtEnd()) then old(Unread())[1..] else old(Unread())
      ensures AtEnd() <==> Unread() == []
      ensures !AtEnd() ==> r == Unread()[0]
      decreases if AtEnd() then 0 else if current == size then 1 else 3
    {
      if AtEnd() {
        return READER_EOF;
      }
      if current != size {
        current := current + 1;
        assert buffer[current..size] == old(buffer[current..size])[1..];
        assert Unread() == old(Unread())[1..];
      } else {
        var ok := ReadBuffer();
        if !ok {
          size := AT_END;
          return READER_EOF;
        } else {
          current := 0;
          if current == size {
            assert false;  // a refill that succeeds brings at least one byte
          }
        }
      }
      r := Current();
    }

    /** One turn of the loop of Read. */
    method ReadByte(buffer: array<byte>, result: nat)
      requires Valid() && !AtEnd() && buffer != this.buffer && result < buffer.Length
      modifies this`size, this`current, this.buffer, Handle`position, buffer
      ensures Valid() && Primed() && (old(Unread()) == [] ==> !old(Primed()) && AtEnd())
      ensures old(Unread()) != [] ==> Unread() == old(Unread())[1..]
      ensures old(Unread()) != [] ==> buffer[..result + 1] == old(buffer[..result]) + [old(Unread())[0]]
    {
      var c := Current();
      buffer[result] := c;
      assert buffer[..result + 1] == old(buffer[..result]) + [c];
      var _ := Next();
    }

    /** Delivers the next bytes, as many as asked for or as there are. Only a reader that has neither fetched a
        byte nor seen the end, on a file with nothing left, claims one byte, which means nothing. */
    method Read(buffer: array<byte>, bufferSize: nat) returns (result: nat)
      requires Valid() && buffer != this.buffer && bufferSize <= buffer.Length
      modifies this`size, this`current, this.buffer, Handle`position, buffer
      ensures Valid() && (old(Primed()) || result > 0 ==> Primed())
      ensures if old(!Primed() && Unread() == []) && bufferSize > 0 then result == 1 && AtEnd()
              else
                && result == (if bufferSize <= |old(Unread())| then bufferSize else |old(Unread())|)
                && buffer[..result] == old(Unread())[..result] && Unread() == old(Unread())[result..]
    {
      ghost var all, first := Unread(), !Primed() && Unread() == [];
      result := 0;
      while !AtEnd() && result < bufferSize
        invariant Valid() && result <= bufferSize && (old(Primed()) || result > 0 ==> Primed())
        invariant if result > |all| then first && result == 1 && AtEnd() else InRead(all, buffer[..result], Unread())
        invariant result == 0 && first ==> !AtEnd()
        decreases bufferSize - result
      {
        if Unread() != [] {
          ReadOneMore(all, buffer[..result], Unread());
        }
        ReadByte(buffer, result);
        result := result + 1;
      }
    }

    /** The loop of ReadLine: the text before the next LF, which is consumed. */
    method ScanLine(line: array<CHAR16>) returns (n: nat)
      requires Valid() && Primed() && LineEnd(Unread()) <= line.Length
      modifies this`size, this`current, buffer, Handle`position, line
      ensures Valid() && Primed()
      ensures n == LineEnd(old(Unread())) && line[..n] == old(Unread())[..n]
      ensures Unread() == AfterLine(old(Unread()))
    {
      ghost var all, e := Unread(), LineEnd(Unread());
      n := 0;
      while !AtEnd()
        invariant Valid() && Primed() && n <= e
        invariant line[..n] == all[..n]
        invariant Unread() == all[n..]
        decreases e - n, if AtEnd() then 0 else 1
      {
        var c := Current();
        assert c == all[n];
        if c == LF {
          assert n == e;
          var _ := Next();
          break;
        }
        line[n] := c;
        var _ := Next();
        n := n + 1;
      }
    }

    /** Reads a line and drops one CR at its end. A bare LF makes the source look one cell in front of the
        line buffer, so the line must not start with one. */
    method ReadLine(line: array<CHAR16>) returns (n: nat)
      requires Valid() && Primed() && FitsLine(Unread(), line.Length)
      modifies this`size, this`current, buffer, Handle`position, line
      ensures Valid() && Primed()
      ensures n == LineLength(old(Unread())) && n < line.Length
      ensures line[..n] == old(Unread())[..n] && line[n] == 0
      ensures Unread() == AfterLine(old(Unread()))
      ensures IsFirstLine(old(Unread()), old(Unread())[..n], Unread())
    {
      ghost var all := Unread();
      FirstLineOf(all);
      n := ScanLine(line);
      assert line[n - 1] == line[..n][n - 1] == all[n - 1];
      if line[n - 1] == CR {
        assert line[..n - 1] == line[..n][..n - 1];
        n := n - 1;
      }
      ghost var text := line[..n];
      line[n] := 0;
      assert line[..n] == text;
    }
  }

  class LWriter {
    var current: nat
    const buffer: array<byte>
    const Handle: EfiFile

    ghost predicate Valid()
      reads this, Handle
    {
      buffer.Length == BUFFER_SIZE && current <= BUFFER_SIZE && Handle.Valid()
    }

    ghost function Pending(): seq<byte>
      requires Valid()
      reads this, Handle, buffer
    {
      buffer[..current]
    }

    /** The file as it will be once the pending bytes are out, and the place the next byte goes to. */
    ghost function Image(): (c: seq<byte>)
      requires Valid()
      reads this, Handle, buffer
      ensures End() <= |c|
    {
      Overwrite(Handle.content, Handle.position, Pending())
    }

    ghost function End(): nat
      reads this, Handle
    {
      Handle.position + current
    }

    constructor (handle: EfiFile)
      requires handle.Valid()
      ensures Valid() && Handle == handle && fresh(buffer) && current == 0
    {
      current := 0;
      buffer := new byte[BUFFER_SIZE];
      Handle := handle;
    }

    method WriteBuffer()
      requires Valid()
      modifies Handle
      ensures Handle.Valid() && Handle.position == old(End()) && Handle.content == old(Image())
    {
      if current != 0 {
        Handle.Write(buffer[..current]);
      } else {
        OverwriteNothing(Handle.content, Handle.position);
      }
    }

    method Flush()
      requires Valid()
      modifies this, Handle
      ensures Valid() && current == 0
      ensures Handle.position == End() == old(End()) && Handle.content == Image() == old(Image())
    {
      WriteBuffer();
      current := 0;
      OverwriteNothing(Handle.content, Handle.position);
    }

    method Reset()
      requires Valid()
      modifies this
      ensures Valid() && current == 0
    {
      current := 0;
    }

    method WriteByte(ch: byte)
      requires Valid()
      modifies this, Handle, buffer
      ensures Valid() && End() == old(End()) + 1 && Image() == Overwrite(old(Image()), old(End()), [ch])
    {
      OverwriteTwice(Handle.content, Handle.position, Pending(), [ch]);
      if current == buffer.Length {
        Flush();
      }
      buffer[current] := ch;
      current := current + 1;
      assert Pending() == buffer[..current - 1] + [ch];
      OverwriteTwice(Handle.content, Handle.position, buffer[..current - 1], [ch]);
    }

    /** Every character is cut to its low byte. */
    method Write(text: seq<CHAR16>)
      requires Valid()
      modifies this, Handle, buffer
      ensures Valid() && End() == old(End()) + |text|
      ensures Image() == Overwrite(old(Image()), old(End()), Bytes(text))
    {
      ghost var image, end, bytes := Image(), End(), Bytes(text);
      OverwriteNothing(image, end);
      for i := 0 to |text|
        invariant Valid() && End() == end + i
        invariant Image() == Overwrite(image, end, bytes[..i])
      {
        OverwriteOneMore(image, end, bytes, i);
        WriteByte(text[i] % 0x100);
      }
      All(bytes);
    }
  }

  /** Each byte differs from its character by a multiple of 256. */
  function Bytes(text: seq<CHAR16>): (b: seq<byte>)
    ensures |b| == |text| && forall i :: 0 <= i < |text| ==> (text[i] - b[i]) % 0x100 == 0
  {
    seq(|text|, i requires 0 <= i < |text| => text[i] % 0x100)
  }

  class LFile {
    const Reader: LReader
    const Writer: LWriter
    const Handle: EfiFile

    ghost predicate Valid()
      reads this, Reader, Writer, Handle
    {
      Reader.Handle == Writer.Handle == Handle && Reader.Valid() && Writer.Valid() && Reader.buffer != Writer.buffer
    }

    /** As opened: at the beginning, with nothing read ahead and nothing to write. */
    ghost predicate Unused()
      reads this, Reader, Writer, Handle
    {
      !Reader.AtEnd() && Reader.current == Reader.size && Writer.current == 0 && Handle.position == 0
    }

    constructor (handle: EfiFile)
      requires handle.Valid()
      ensures Valid() && Handle == handle
      ensures fresh(Reader) && fresh(Writer) && fresh(Reader.buffer) && fresh(Writer.buffer)
      ensures handle.position == 0 ==> Unused()
    {
      Reader := new LReader(handle);
      Writer := new LWriter(handle);
      Handle := handle;
    }

    /** Drops what the reader holds, writes what the writer holds, and moves. */
    method SetPosition(p: nat)
      requires Valid() && p <= |Writer.Image()|
      modifies Reader, Writer, Handle
      ensures Valid() && Writer.current == 0 && Handle.content == old(Writer.Image()) && Handle.position == p
      ensures Reader.AtEnd() == old(Reader.AtEnd()) && (!Reader.AtEnd() ==> Reader.current == Reader.size)
    {
      Reader.Reset();
      Writer.Flush();
      Writer.Reset();
      Handle.SetPosition(p);
    }
  }

  // ----- The shell's copy and addline -----

  /** One pass of the copy loop. */
  method CopyByte(reader: LReader, writer: LWriter)
    requires reader.Valid() && reader.Primed() && !reader.AtEnd() && writer.Valid()
    requires reader.Handle != writer.Handle && reader.buffer != writer.buffer
    modifies reader`size, reader`current, reader.buffer, reader.Handle`position, writer, writer.buffer, writer.Handle
    ensures reader.Valid() && reader.Primed() && writer.Valid()
    ensures reader.Unread() == old(reader.Unread())[1..] && (reader.AtEnd() <==> reader.Unread() == [])
    ensures writer.End() == old(writer.End()) + 1
    ensures writer.Image() == Overwrite(old(writer.Image()), old(writer.End()), [old(reader.Unread())[0]])
  {
    var c := reader.Current();
    writer.WriteByte(c);
    var _ := reader.Next();
  }

  /** The whole of the first file goes over the beginning of the second. */
  method Copy(file: LFile, fileCopy: LFile)
    requires file.Valid() && fileCopy.Valid()
    requires file.Handle != fileCopy.Handle && file.Reader.buffer != fileCopy.Writer.buffer
    requires file.Unused() && fileCopy.Unused()
    modifies file.Reader, file.Reader.buffer, file.Handle`position
    modifies fileCopy.Writer, fileCopy.Writer.buffer, fileCopy.Handle
    ensures fileCopy.Handle.content == Overwrite(old(fileCopy.Handle.content), 0, file.Handle.content)
  {
    ghost var all, before := file.Handle.content, fileCopy.Handle.content;
    var reader, writer := file.Reader, fileCopy.Writer;
    OverwriteNothing(before, 0);
    assert writer.Image() == before && writer.End() == 0 && reader.Unread() == all;
    var _ := reader.Next();
    CopyRest(reader, writer);
    assert writer.Image() == Overwrite(before, 0, all);
    writer.Flush();
  }

  /** Of the bytes d, which go to p in the file c, the first n have been written: what the file will be, the
      place of the next byte, and what is still to be read. */
  ghost predicate InCopy(c: seq<byte>, p: nat, d: seq<byte>, n: nat, image: seq<byte>, end: nat, unread: seq<byte>)
    requires p <= |c|
  {
    n <= |d| && unread == d[n..] && end == p + n && image == Overwrite(c, p, d[..n])
  }

  lemma CopyBegun(c: seq<byte>, p: nat, d: seq<byte>)
    requires p <= |c|
    ensures InCopy(c, p, d, 0, c, p, d)
  {
    OverwriteNothing(c, p);
  }

  lemma CopyOneMore(c: seq<byte>, p: nat, d: seq<byte>, n: nat, image: seq<byte>, end: nat, unread: seq<byte>)
    requires p <= |c| && InCopy(c, p, d, n, image, end, unread) && unread != []
    ensures InCopy(c, p, d, n + 1, Overwrite(image, end, [unread[0]]), end + 1, unread[1..])
  {
    OverwriteOneMore(c, p, d, n);
  }

  lemma CopyDone(c: seq<byte>, p: nat, d: seq<byte>, n: nat, image: seq<byte>, end: nat)
    requires p <= |c| && InCopy(c, p, d, n, image, end, [])
    ensures image == Overwrite(c, p, d)
  {
    assert d[..n] == d;
  }

  /** The copy loop, from a primed reader. */
  method CopyRest(reader: LReader, writer: LWriter)
    requires reader.Valid() && reader.Primed() && writer.Valid() && (reader.AtEnd() <==> reader.Unread() == [])
    requires reader.Handle != writer.Handle && reader.buffer != writer.buffer
    modifies reader`size, reader`current, reader.buffer, reader.Handle`position, writer, writer.buffer, writer.Handle
    ensures writer.Valid()
    ensures writer.Image() == Overwrite(old(writer.Image()), old(writer.End()), old(reader.Unread()))
  {
    ghost var all, image, end, n := reader.Unread(), writer.Image(), writer.End(), 0;
    CopyBegun(image, end, all);
    while !reader.AtEnd()
      invariant reader.Valid() && reader.Primed() && writer.Valid()
      invariant reader.AtEnd() <==> reader.Unread() == []
      invariant InCopy(image, end, all, n, writer.Image(), writer.End(), reader.Unread())
      decreases |reader.Unread()|
    {
      CopyOneMore(image, end, all, n, writer.Image(), writer.End(), reader.Unread());
      CopyByte(reader, writer);
      n := n + 1;
    }
    CopyDone(image, end, all, n, writer.Image(), writer.End());
  }

  /** The copy is identical exactly when the target was no longer than the source. */
  lemma CopyIsIdentical(target: seq<byte>, source: seq<byte>)
    ensures Overwrite(target, 0, source) == source <==> |target| <= |source|
  {
    assert |Overwrite(target, 0, source)| == if |target| <= |source| then |source| else |target|;
  }

  /** The shell finds the end of a file by reading it. */
  method FindEnd(file: LFile) returns (position: nat)
    requires file.Valid() && file.Unused()
    modifies file.Reader, file.Reader.buffer, file.Handle`position
    ensures file.Valid() && position == |file.Handle.content|
  {
    var reader := file.Reader;
    ghost var all := file.Handle.content;
    position := 0;
    var _ := reader.Next();
    while !reader.AtEnd()
      invariant reader.Valid() && reader.Primed() && position <= |all|
      invariant reader.Unread() == all[position..] && (reader.AtEnd() <==> position == |all|)
      decreases |all| - position
    {
      position := position + 1;
      var _ := reader.Next();
      assert all[position - 1..][1..] == all[position..];
    }
  }

  /** A disk file is opened anew, at its beginning, for every added line. */
  method AddLine(disk: EfiFile, text: seq<CHAR16>)
    requires disk.Valid()
    modifies disk
    ensures disk.Valid() && disk.content == old(disk.content) + Bytes(text) + LINE_END
  {
    disk.SetPosition(0);
    var file := new LFile(disk);
    ghost var all := disk.content;
    var position := FindEnd(file);
    OverwriteNothing(all, disk.position);
    file.SetPosition(position);
    AppendTwice(all, Bytes(text), LINE_END);
    file.Writer.Write(text);
    LineEndBytes();
    file.Writer.Write([CR, LF]);
    file.Writer.Flush();
  }

  const LINE_END: seq<byte> := [CR, LF]

  lemma LineEndBytes()
    ensures Bytes([CR, LF]) == LINE_END
  {
  }

  lemma AppendTwice(c: seq<byte>, d: seq<byte>, e: seq<byte>)
    ensures Overwrite(c, |c|, []) == c
    ensures Overwrite(c, |c|, d) == c + d && Overwrite(c + d, |c| + |d|, e) == c + d + e
  {
  }

  // ----- Lines -----

  const LF: byte := 10
  const CR: byte := 13

  /** The position of the first LF, or the length. */
  function LineEnd(s: seq<byte>): (e: nat)
    ensures e <= |s| && (e < |s| ==> s[e] == LF)
    ensures forall k :: 0 <= k < e ==> s[k] != LF
  {
    if s == [] || s[0] == LF then 0 else 1 + LineEnd(s[1..])
  }

  function LineLength(s: seq<byte>): nat {
    var e := LineEnd(s);
    if e > 0 && s[e - 1] == CR then e - 1 else e
  }

  function AfterLine(s: seq<byte>): seq<byte> {
    var e := LineEnd(s);
    if e < |s| then s[e + 1..] else []
  }

  predicate EndsInCR(text: seq<byte>) {
    text != [] && text[|text| - 1] == CR
  }

  /** The text is the first line and the rest what follows it: a line ends in LF, CR LF or with the file, before
      which there may be a CR, and a text in front of a bare end does not itself end in CR. */
  predicate IsFirstLine(s: seq<byte>, text: seq<byte>, rest: seq<byte>) {
    && LF !in text
    && (|| s == text + [CR, LF] + rest
        || (s == text + [LF] + rest && !EndsInCR(text))
        || (s == text + [CR] && rest == [])
        || (s == text && !EndsInCR(text) && rest == []))
  }

  lemma FirstLineOf(s: seq<byte>)
    ensures LineLength(s) <= |s| && IsFirstLine(s, s[..LineLength(s)], AfterLine(s))
  {
    var e, text, rest := LineEnd(s), s[..LineLength(s)], AfterLine(s);
    if LineLength(s) < e {
      assert s == if e < |s| then text + [CR, LF] + rest else text + [CR];
    } else {
      assert s == if e < |s| then text + [LF] + rest else text;
    }
  }

  lemma LineEndIs(s: seq<byte>, e: nat)
    requires e <= |s| && LF !in s[..e] && (e < |s| ==> s[e] == LF)
    ensures LineEnd(s) == e
    ensures AfterLine(s) == if e < |s| then s[e + 1..] else []
  {
    assert forall i :: 0 <= i < e ==> s[i] == s[..e][i];
  }

  lemma LineEndsInLF(text: seq<byte>, cr: seq<byte>, rest: seq<byte>)
    requires LF !in text && (cr == [] || cr == [CR])
    ensures LineEnd(text + cr + [LF] + rest) == |text| + |cr| && AfterLine(text + cr + [LF] + rest) == rest
  {
    var s := text + cr + [LF] + rest;
    assert s[..|text| + |cr|] == text + cr;
    LineEndIs(s, |text| + |cr|);
  }

  lemma LineEndsWithFile(text: seq<byte>, cr: seq<byte>)
    requires LF !in text && (cr == [] || cr == [CR])
    ensures LineEnd(text + cr) == |text| + |cr| && AfterLine(text + cr) == []
  {
    assert (text + cr)[..|text| + |cr|] == text + cr;
    LineEndIs(text + cr, |text| + |cr|);
  }

  /** Whichever way the line ends, and whether or not the file goes on, what is read is the text: exactly one CR is
      dropped, and only at the end. */
  lemma FirstLineIsUnique(s: seq<byte>, text: seq<byte>, rest: seq<byte>)
    requires IsFirstLine(s, text, rest)
    ensures text == s[..LineLength(s)] && rest == AfterLine(s)
  {
    if s == text + [CR, LF] + rest {
      assert s == text + [CR] + [LF] + rest;
      LineEndsInLF(text, [CR], rest);
    } else if s == text + [LF] + rest && !EndsInCR(text) {
      assert s == text + [] + [LF] + rest;
      LineEndsInLF(text, [], rest);
    } else if s == text + [CR] {
      LineEndsWithFile(text, [CR]);
    } else {
      assert s == text + [];
      LineEndsWithFile(text, []);
    }
  }

  /** The next line is not bare, and fits with its terminator in a buffer of this size. */
  predicate FitsLine(s: seq<byte>, size: nat) {
    0 < LineEnd(s) <= size && LineLength(s) < size
  }

  // ----- Lines written by addline come back from ReadLine -----

  /** What addline leaves of the lines it is given, one after the other. */
  function Encode(lines: seq<seq<CHAR16>>): seq<byte> {
    if lines == [] then [] else Bytes(lines[0]) + LINE_END + Encode(lines[1..])
  }

  /** A line that a C string of byte-sized characters can hold; it may be empty and may contain CR. */
  predicate PlainLine(text: seq<CHAR16>) {
    forall i :: 0 <= i < |text| ==> 0 < text[i] < 0x100 && text[i] != LF
  }

  lemma {:induction false} EncodeOneMore(lines: seq<seq<CHAR16>>, text: seq<CHAR16>)
    ensures Encode(lines + [text]) == Encode(lines) + Bytes(text) + LINE_END
  {
    if lines == [] {
      assert lines + [text] == [text] && Encode([text]) == Bytes(text) + LINE_END + Encode([]);
    } else {
      assert (lines + [text])[1..] == lines[1..] + [text];
      EncodeOneMore(lines[1..], text);
    }
  }

  lemma FirstLine(text: seq<CHAR16>, rest: seq<byte>)
    requires PlainLine(text)
    ensures var s := Bytes(text) + LINE_END + rest;
      LineEnd(s) == |text| + 1 && LineLength(s) == |text| && s[..|text|] == text && AfterLine(s) == rest
  {
    var s := Bytes(text) + LINE_END + rest;
    var t := Bytes(text);
    assert t == text && s == t + [CR] + [LF] + rest;
    LineEndsInLF(t, [CR], rest);
  }

  lemma EncodeFirst(lines: seq<seq<CHAR16>>, i: nat)
    requires i < |lines| && PlainLine(lines[i])
    ensures var s := Encode(lines[i..]);
      && LineEnd(s) == |lines[i]| + 1 && LineLength(s) == |lines[i]| && s[..|lines[i]|] == lines[i]
      && AfterLine(s) == Encode(lines[i + 1..])
  {
    FirstLine(lines[i], Encode(lines[i + 1..]));
    assert lines[i..][1..] == lines[i + 1..];
  }

  /** Reading as many lines as were written, from a primed reader. */
  method ReadBack(reader: LReader, count: nat, line: array<CHAR16>, ghost lines: seq<seq<CHAR16>>)
    returns (back: seq<seq<CHAR16>>)
    requires reader.Valid() && reader.Primed() && reader.Unread() == Encode(lines) && count == |lines|
    requires forall i :: 0 <= i < |lines| ==> PlainLine(lines[i]) && |lines[i]| + 1 <= line.Length
    modifies reader`size, reader`current, reader.buffer, reader.Handle`position, line
    ensures back == lines && reader.Valid() && reader.Unread() == [] && reader.AtEnd()
  {
    back := [];
    for i := 0 to count
      invariant reader.Valid() && reader.Primed() && reader.Unread() == Encode(lines[i..])
      invariant back == lines[..i]
    {
      EncodeFirst(lines, i);
      var n := reader.ReadLine(line);
      assert line[..n] == lines[i];
      back := back + [line[..n]];
    }
  }

  /** Appending the lines to an empty file and reading as many lines back gives the same lines and leaves
      the reader at its end. */
  method AppendAndReadBack(lines: seq<seq<CHAR16>>, line: array<CHAR16>) returns (back: seq<seq<CHAR16>>, atEnd: bool)
    requires forall i :: 0 <= i < |lines| ==> PlainLine(lines[i]) && |lines[i]| + 1 <= line.Length
    modifies line
    ensures back == lines && atEnd
  {
    var disk := new EfiFile([]);
    for i := 0 to |lines|
      invariant disk.Valid() && disk.content == Encode(lines[..i])
    {
      AddLine(disk, lines[i]);
      EncodeOneMore(lines[..i], lines[i]);
      assert lines[..i + 1] == lines[..i] + [lines[i]];
    }
    assert lines[..|lines|] == lines;
    disk.SetPosition(0);
    var file := new LFile(disk);
    var _ := file.Reader.Next();
    back := ReadBack(file.Reader, |lines|, line, lines);
    atEnd := file.Reader.AtEnd();
  }
}
