/** The output side of the print library: characters are buffered, handed on in chunks, and cut off at the
    end of the caller's string or put in a string that grows. */
module PrintOutput {
  import opened CStrings
  import opened Sequences

  const PRINT_STRING_LEN := 200
  const NEWLINE: CHAR16 := 10
  const RETURN: CHAR16 := 13
  const BLANK: CHAR16 := 32

  /** The text as it is sent: a carriage return in front of every newline. */
  function Expanded(s: seq<CHAR16>): seq<CHAR16> {
    if s == [] then []
    else Expanded(s[..|s| - 1]) + ExpandedChar(s[|s| - 1])
  }

  function ExpandedChar(c: CHAR16): seq<CHAR16> {
    if c == NEWLINE then [RETURN, NEWLINE] else [c]
  }

  /** The text with the carriage return in front of each newline taken out again. */
  function Contracted(s: seq<CHAR16>): seq<CHAR16> {
    var n := |s|;
    if n == 0 then []
    else if n > 1 && s[n - 2] == RETURN && s[n - 1] == NEWLINE then Contracted(s[..n - 2]) + [NEWLINE]
    else Contracted(s[..n - 1]) + [s[n - 1]]
  }

  /** No character is lost and none but the carriage returns is added. */
  lemma {:induction false} ContractedExpanded(s: seq<CHAR16>)
    ensures Contracted(Expanded(s)) == s
    decreases |s|
  {
    if s != [] {
      var k := |s| - 1;
      ContractedExpanded(s[..k]);
      ContractedOneMore(Expanded(s[..k]), s[k]);
      OneMore(s, k);
      All(s);
    }
  }

  lemma {:induction false} ExpandedLength(s: seq<CHAR16>)
    ensures |Expanded(s)| == |s| + multiset(s)[NEWLINE]
    decreases |s|
  {
    if s != [] {
      var k := |s| - 1;
      ExpandedLength(s[..k]);
      assert s == s[..k] + [s[k]];
    }
  }

  lemma ContractedOneMore(e: seq<CHAR16>, c: CHAR16)
    ensures Contracted(e + ExpandedChar(c)) == Contracted(e) + [c]
  {
    assert (e + ExpandedChar(c))[..|e|] == e;
  }

  /** Every newline has its carriage return. */
  lemma {:induction false} ReturnBeforeNewline(s: seq<CHAR16>, i: nat)
    requires i < |Expanded(s)| && Expanded(s)[i] == NEWLINE
    ensures i > 0 && Expanded(s)[i - 1] == RETURN
    decreases |s|
  {
    var k := |s| - 1;
    if i < |Expanded(s[..k])| {
      ReturnBeforeNewline(s[..k], i);
    }
  }

  function Truncated(s: seq<CHAR16>, n: nat): seq<CHAR16> {
    if |s| <= n then s else s[..n]
  }

  /** It is the longest prefix of up to n characters. */
  lemma TruncatedIsLongest(s: seq<CHAR16>, n: nat, t: seq<CHAR16>)
    ensures t == Truncated(s, n) <==> t <= s && |t| <= n && (|t| < n ==> t == s)
  {
  }

  lemma TruncatedConcat(s: seq<CHAR16>, t: seq<CHAR16>, n: nat)
    ensures Truncated(Truncated(s, n) + t, n) == Truncated(s + t, n)
  {
  }

  function StrLen(s: seq<CHAR16>): (n: nat)
    ensures n <= |s| && (n < |s| ==> s[n] == 0) && forall i :: 0 <= i < n ==> s[i] != 0
  {
    if s == [] || s[0] == 0 then 0 else 1 + StrLen(s[1..])
  }

  /** The string under construction: str[..len] so far, at most maxlen. */
  class PoolPrint {
    var str: array<CHAR16>
    var len: nat
    var maxlen: nat
    const grows: bool    // the caller's string does not, the pool's does

    ghost predicate Valid()
      reads this, str
    {
      && len <= maxlen
      && if grows then maxlen <= str.Length && (maxlen == 0 || len < maxlen) else maxlen < str.Length
    }

    ghost function Contents(): (s: seq<CHAR16>)
      requires Valid()
      reads this, str
      ensures |s| == len
    {
      str[..len]
    }

    /** A caller's string with room for limit characters and the terminator. */
    constructor Fixed(buffer: array<CHAR16>, limit: nat)
      requires limit < buffer.Length
      ensures Valid() && !grows && str == buffer && len == 0 && maxlen == limit
    {
      str, len, maxlen, grows := buffer, 0, limit, false;
    }

    constructor Pool()
      ensures Valid() && grows && len == 0 && fresh(str)
    {
      str := new CHAR16[0];
      len, maxlen, grows := 0, 0, true;
    }

    /** _SPrint: append what fits, and terminate. */
    method SPrint(buffer: seq<CHAR16>)
      requires len <= maxlen && maxlen <= str.Length
      requires maxlen < str.Length || len + StrLen(buffer) < maxlen
      modifies this`len, str
      ensures len <= maxlen
      ensures str[..len] == Truncated(old(str[..len]) + buffer[..StrLen(buffer)], maxlen)
      ensures maxlen > 0 ==> len < str.Length && str[len] == 0
    {
      var l := StrLen(buffer);
      if len + l > maxlen {
        l := maxlen - len;
      }
      ghost var before := str[..len];
      forall i | 0 <= i < l {
        str[len + i] := buffer[i];
      }
      len := len + l;
      ghost var text := str[..len];
      assert text == before + buffer[..l];
      if len < maxlen {
        str[len] := 0;
      } else if maxlen != 0 {
        str[maxlen] := 0;
      }
      assert str[..len] == text;
    }

    /** _PoolPrint: make room first. */
    method GrowAndPrint(buffer: seq<CHAR16>)
      requires Valid() && grows
      modifies this, str
      ensures Valid() && Contents() == old(Contents()) + buffer[..StrLen(buffer)]
      ensures len < str.Length && str[len] == 0
      ensures str == old(str) || fresh(str)
    {
      var newlen := len + StrLen(buffer) + 1;
      if newlen > maxlen {
        newlen := newlen + PRINT_STRING_LEN;
        maxlen := newlen;
        var bigger := new CHAR16[maxlen];
        forall i | 0 <= i < len {
          bigger[i] := str[i];
        }
        assert bigger[..len] == str[..len];
        str := bigger;
      }
      SPrint(buffer);
    }

    /** The output routine of the print state. */
    method Output(buffer: seq<CHAR16>)
      requires Valid() && (!grows ==> maxlen > 0)
      modifies this, str
      ensures Valid() && (!grows ==> str == old(str) && maxlen == old(maxlen))
      ensures grows ==> str == old(str) || fresh(str)
      ensures len < str.Length && str[len] == 0
      ensures Contents() == if grows then old(Contents()) + buffer[..StrLen(buffer)]
                            else Truncated(old(Contents()) + buffer[..StrLen(buffer)], maxlen)
    {
      if grows {
        GrowAndPrint(buffer);
      } else {
        SPrint(buffer);
      }
    }
  }

  class PrintState {
    const Buffer: array<CHAR16>
    const Context: PoolPrint
    var Pos: nat
    var Len: nat
    ghost var Done: seq<CHAR16>      // handed on to the output routine so far
    ghost var Put: seq<CHAR16>       // everything put so far, before newlines are expanded

    /** What has been handed on is in the string; the chunk in the buffer has no terminator inside. */
    ghost predicate Open()
      reads this, Buffer, Context, Context.str
    {
      && Buffer.Length == PRINT_STRING_LEN && Pos < PRINT_STRING_LEN && Len == |Done| + Pos
      && (forall i :: 0 <= i < Pos ==> Buffer[i] != 0)
      && Context.Valid() && (!Context.grows ==> Context.maxlen > 0) && Context.str != Buffer
      && Context.Contents() == Kept(Done)
    }

    /** Between calls the buffer has room for another character and the terminator. */
    ghost predicate Valid()
      reads this, Buffer, Context, Context.str
    {
      Open() && Pos < PRINT_STRING_LEN - 1 && Sent() == Expanded(Put)
    }

    /** What has been handed on and what waits in the buffer. */
    ghost function Sent(): seq<CHAR16>
      requires Pos <= Buffer.Length
      reads this, Buffer
    {
      Done + Buffer[..Pos]
    }

    /** What the string holds once s has been handed on. */
    ghost function Kept(s: seq<CHAR16>): seq<CHAR16>
      reads Context
    {
      if Context.grows then s else Truncated(s, Context.maxlen)
    }

    constructor (context: PoolPrint)
      requires context.Valid() && context.len == 0 && (!context.grows ==> context.maxlen > 0)
      ensures Valid() && Context == context && fresh(Buffer) && Put == [] && Len == 0
    {
      Buffer := new CHAR16[PRINT_STRING_LEN];
      Context := context;
      Pos, Len, Done, Put := 0, 0, [], [];
    }

    /** The caller's string stays the one it was; the pool's is replaced only by a new one. */
    twostate predicate SameString()
      reads Context
    {
      (Context.str == old(Context.str) || (Context.grows && fresh(Context.str)))
      && (Context.grows || Context.maxlen == old(Context.maxlen))
    }

    /** PFLUSH: hand the chunk on. */
    method Flush()
      requires Open()
      modifies this`Pos, this`Done, Buffer, Context, Context.str
      ensures Open() && Pos == 0 && SameString()
      ensures Sent() == Done == old(Sent())
      ensures Context.len < Context.str.Length && Context.str[Context.len] == 0
    {
      ghost var chunk := Buffer[..Pos];
      Buffer[Pos] := 0;
      ChunkLength(Buffer[..], Pos);
      assert Buffer[..][..Pos] == chunk;
      TruncatedConcat(Done, chunk, Context.maxlen);
      Context.Output(Buffer[..]);
      Pos, Done := 0, Done + chunk;
    }

    /** One character into the buffer, which is flushed when it is full. */
    method Store(c: CHAR16)
      requires Open() && Pos < PRINT_STRING_LEN - 1 && c != 0
      modifies this`Pos, this`Len, this`Done, Buffer, Context, Context.str
      ensures Open() && Pos < PRINT_STRING_LEN - 1 && SameString() && Sent() == old(Sent()) + [c]
    {
      ghost var before := Sent();
      Buffer[Pos] := c;
      Pos := Pos + 1;
      Len := Len + 1;
      assert Sent() == before + [c];
      if Pos >= PRINT_STRING_LEN - 1 {
        Flush();
      }
    }

    /** PPUTC: a newline brings a carriage return with it. */
    method PutC(c: CHAR16)
      requires Valid() && c != 0
      modifies this, Buffer, Context, Context.str
      ensures Valid() && SameString() && Put == old(Put) + [c]
      decreases c == NEWLINE
    {
      ghost var was := Put;
      ExpandedOneMore(was, c);
      if c == NEWLINE {
        PutC(RETURN);
        ExpandedOneMore(was, RETURN);
      }
      Store(c);
      Put := was + [c];
    }

    /** The characters of a text, one by one. */
    method PutText(text: seq<CHAR16>)
      requires Valid() && forall i :: 0 <= i < |text| ==> text[i] != 0
      modifies this, Buffer, Context, Context.str
      ensures Valid() && SameString() && Put == old(Put) + text
    {
      ghost var was := Put;
      for i := 0 to |text|
        invariant Valid() && SameString() && Put == was + text[..i]
      {
        OneMoreBehind(was, text, i);
        PutC(text[i]);
      }
      All(text);
    }

    /** n times the same character. */
    method PutRepeated(c: CHAR16, n: nat)
      requires Valid() && c != 0
      modifies this, Buffer, Context, Context.str
      ensures Valid() && SameString() && Put == old(Put) + Repeated(c, n)
    {
      ghost var was := Put;
      for i := 0 to n
        invariant Valid() && SameString() && Put == was + Repeated(c, i)
      {
        OnceMoreBehind(was, c, i);
        PutC(c);
      }
    }

    /** PITEM: a padded item. */
    method PutItem(item: Item)
      requires Valid() && item.pad != 0
      modifies this, Buffer, Context, Context.str
      ensures Valid() && SameString() && Put == old(Put) + item.Layout()
    {
      var before, fill, shown, after := item.Measure();
      PutPadded(before, item.pad, fill, item.text[..shown], after);
    }

    method PutPadded(before: nat, pad: CHAR16, fill: nat, text: Text, after: nat)
      requires Valid() && pad != 0
      modifies this, Buffer, Context, Context.str
      ensures Valid() && SameString() && Put == old(Put) + Padded(before, pad, fill, text, after)
    {
      InOnePiece(Put, Repeated(BLANK, before), Repeated(pad, fill), text, Repeated(BLANK, after));
      PutRepeated(BLANK, before);
      PutRepeated(pad, fill);
      PutText(text);
      PutRepeated(BLANK, after);
    }
  }

  lemma ExpandedOneMore(s: seq<CHAR16>, c: CHAR16)
    ensures Expanded(s + [c]) == Expanded(s) + ExpandedChar(c)
  {
    assert (s + [c])[..|s|] == s;
  }

  lemma InOnePiece<T>(was: seq<T>, front: seq<T>, fill: seq<T>, text: seq<T>, back: seq<T>)
    ensures was + front + fill + text + back == was + (front + fill + text + back)
  {
    Associate(was, front, fill);
    Associate(was, front + fill, text);
    Associate(was, front + fill + text, back);
  }

  /** A text with so many blanks before it, so many pad characters, and so many blanks after it. */
  function Padded(before: nat, pad: CHAR16, fill: nat, text: Text, after: nat): seq<CHAR16> {
    Repeated(BLANK, before) + Repeated(pad, fill) + text + Repeated(BLANK, after)
  }

  function Repeated(c: CHAR16, n: nat): (s: seq<CHAR16>)
    ensures |s| == n
  {
    seq(n, _ => c)
  }

  lemma OnceMoreBehind(was: seq<CHAR16>, c: CHAR16, n: nat)
    ensures was + Repeated(c, n) + [c] == was + Repeated(c, n + 1)
  {
    assert Repeated(c, n + 1) == Repeated(c, n) + [c];
    Associate(was, Repeated(c, n), [c]);
  }

  lemma OneMoreBehind(was: seq<CHAR16>, text: seq<CHAR16>, i: nat)
    requires i < |text|
    ensures was + text[..i] + [text[i]] == was + text[..i + 1]
  {
    OneMore(text, i);
    Associate(was, text[..i], [text[i]]);
  }

  const NO_WIDTH := 0xFFFF_FFFF_FFFF_FFFF

  /** An item with its least width, the width of its field (NO_WIDTH if it has none) and its padding. */
  datatype Item = Item(text: Text, width: nat, fieldWidth: nat, pad: CHAR16, padBefore: bool) {
    /** How much of the text is shown. */
    function Shown(): (n: nat)
      ensures n <= |text| && (fieldWidth != NO_WIDTH ==> n <= fieldWidth)
      ensures n < |text| ==> fieldWidth != NO_WIDTH && n == fieldWidth
    {
      if fieldWidth == NO_WIDTH || |text| <= fieldWidth then |text| else fieldWidth
    }

    function Fill(): nat { if Shown() < width then width - Shown() else 0 }

    function Blanks(): nat {
      var w := Shown() + Fill();
      if fieldWidth != NO_WIDTH && w < fieldWidth then fieldWidth - w else 0
    }

    function Before(): nat { if padBefore then Blanks() else 0 }

    function After(): nat { if padBefore then 0 else Blanks() }

    /** PITEM's own arithmetic. */
    method Measure() returns (before: nat, fill: nat, len: nat, after: nat)
      ensures before == Before() && fill == Fill() && len == Shown() && after == After()
    {
      len := |text|;
      var field := fieldWidth;
      if field == NO_WIDTH {
        field := len;
      }
      if len > field {
        len := field;
      }
      var w := width;
      if len > w {
        w := len;
      }
      fill := w - len;
      if w < field {
        before, after := if padBefore then field - w else 0, if padBefore then 0 else field - w;
      } else {
        before, after := 0, 0;
      }
    }

    function Layout(): seq<CHAR16> {
      Padded(Before(), pad, Fill(), text[..Shown()], After())
    }
  }

  /** The field has its width, unless the item's own width is larger, and the text stands at its right or
      left end, cut to the field. */
  lemma LayoutFillsTheField(item: Item)
    ensures var s := item.Layout();
      && (item.fieldWidth != NO_WIDTH ==>
            |s| == if item.width <= item.fieldWidth then item.fieldWidth else item.width)
      && (item.fieldWidth == NO_WIDTH ==> |s| == if item.width <= |item.text| then |item.text| else item.width)
      && (item.padBefore ==> item.text[..item.Shown()] == s[|s| - item.Shown()..])
      && (!item.padBefore ==> item.text[..item.Shown()] == s[item.Fill()..item.Fill() + item.Shown()])
  {
  }

  /** Character by character: the item, which is the text with its own padding in front up to the item's width, and
      blanks up to the width of the field on the side that padBefore names. */
  lemma LayoutCharacters(item: Item, i: nat)
    requires i < |item.Layout()|
    ensures var s, shown := item.Layout(), item.Shown();
      var width := if item.width <= shown then shown else item.width;
      && width <= |s|
      && var from := if item.padBefore then |s| - width else 0;
         s[i] == if i < from || from + width <= i then BLANK
                 else if i < from + width - shown then item.pad
                 else item.text[i - (from + width - shown)]
  {
  }

  const PERCENT: CHAR16 := '%' as int

  /** _Print on a format without directives, into the caller's string: the first limit characters of the
      expanded text, wherever the chunks happened to end. */
  method PrintToString(buffer: array<CHAR16>, limit: nat, format: Text) returns (count: nat, len: nat)
    requires 0 < limit < buffer.Length && PERCENT !in format
    modifies buffer
    ensures count == |Expanded(format)| && len < buffer.Length && buffer[len] == 0
    ensures buffer[..len] == Truncated(Expanded(format), limit)
  {
    var context := new PoolPrint.Fixed(buffer, limit);
    var ps := new PrintState(context);
    ps.PutText(format);
    assert ps.Put == format && ps.Sent() == Expanded(format);
    ps.Flush();
    return ps.Len, context.len;
  }

  /** The same into a string of the pool: nothing is cut off. */
  method PrintToPool(format: Text) returns (count: nat, str: array<CHAR16>, len: nat)
    requires PERCENT !in format
    ensures count == |Expanded(format)| == len && len < str.Length && str[len] == 0
    ensures str[..len] == Expanded(format)
  {
    var context := new PoolPrint.Pool();
    var ps := new PrintState(context);
    ps.PutText(format);
    assert ps.Put == format && ps.Sent() == Expanded(format);
    ps.Flush();
    return ps.Len, context.str, context.len;
  }

  lemma ChunkLength(buffer: seq<CHAR16>, pos: nat)
    requires pos < |buffer| && buffer[pos] == 0 && forall i :: 0 <= i < pos ==> buffer[i] != 0
    ensures StrLen(buffer) == pos
  {
  }
}
