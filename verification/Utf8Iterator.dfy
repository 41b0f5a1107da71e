/**
  Gumbo's input iterator: a cursor over the source bytes that holds the character under it,
  the source position, and a mark to come back to.
 */
module Utf8Iterators {
  import opened Words
  import opened Utf8
  import opened StringBuffers

  datatype Position = Position(line: nat, column: nat, offset: nat)

  /** The character under the cursor: where its last part starts, its width, and what it reads as. */
  datatype Cursor = Cursor(start: nat, width: nat, current: int, pos: Position)

  const EOF: int := -1
  const TAB: int := 0x9

  datatype Placed = Placed(start: nat, width: nat, point: nat)

  /**
    What read_char makes of the bytes at i. When a line feed follows a carriage return the
    cursor moves on by one byte, and the width stays that of the carriage return.
   */
  function CharAt(source: seq<Byte>, i: nat): (c: Placed)
    requires i < |source|
    ensures i <= c.start <= i + 1 && c.start + c.width <= |source| && c.width > 0
  {
    var s := source[i..];
    var h := Head(s);
    Placed(if CrLf(s) then i + 1 else i, h.width, FoldCr(h.point))
  }

  function ReadAt(source: seq<Byte>, i: nat, p: Position): Cursor
    requires i < |source|
  {
    var c := CharAt(source, i);
    Cursor(c.start, c.width, c.point, p.(offset := p.offset + (c.start - i)))
  }

  /** Where the character behind the one at i starts. */
  function NextStart(source: seq<Byte>, i: nat): (next: nat)
    requires i < |source|
    ensures i < next <= |source|
    ensures next - i == Head(source[i..]).width + if CrLf(source[i..]) then 1 else 0
  {
    CharAt(source, i).start + CharAt(source, i).width
  }

  /** Every code point delivered from byte i on. */
  function DeliverFrom(source: seq<Byte>, i: nat): seq<nat>
    requires i <= |source|
    decreases |source| - i
  {
    if i == |source| then []
    else
      [CharAt(source, i).point] + DeliverFrom(source, NextStart(source, i))
  }

  /** Delivering from a byte on is delivering the rest of the input. */
  lemma {:induction false} DeliverFromSlice(source: seq<Byte>, i: nat)
    requires i <= |source|
    ensures DeliverFrom(source, i) == Deliver(source[i..])
    decreases |source| - i
  {
    if i < |source| {
      DeliverFromHead(source, i);
      DeliverTail(source, i);
      DeliverFromSlice(source, NextStart(source, i));
    }
  }

  lemma DeliverTail(source: seq<Byte>, i: nat)
    requires i < |source|
    ensures Deliver(source[i..]) == [FoldCr(Head(source[i..]).point)] + Deliver(source[NextStart(source, i)..])
  {
    DeliverHead(source[i..]);
    SliceOfSlice(source, i, NextStart(source, i));
  }

  lemma DeliverFromHead(source: seq<Byte>, i: nat)
    requires i < |source|
    ensures DeliverFrom(source, i) == [FoldCr(Head(source[i..]).point)] + DeliverFrom(source, NextStart(source, i))
  {
  }

  lemma DeliverHead(s: seq<Byte>)
    requires s != []
    ensures var n := Head(s).width + if CrLf(s) then 1 else 0;
            n <= |s| && Deliver(s) == [FoldCr(Head(s).point)] + Deliver(s[n..])
  {
  }

  lemma SliceOfSlice(source: seq<Byte>, i: nat, j: nat)
    requires i <= j <= |source|
    ensures source[i..][j - i..] == source[j..]
  {
  }

  /** A byte that only continues a sequence is an error by itself. */
  lemma HeadOfContinuation(s: seq<Byte>)
    requires s != [] && Continuation(s[0])
    ensures Head(s) == Char(REPLACEMENT, 1)
  {
  }

  lemma HeadOfLineFeed(s: seq<Byte>)
    requires s != [] && s[0] == LF
    ensures Head(s) == Char(LF, 1)
  {
  }

  lemma LongHeadContinues(s: seq<Byte>)
    requires s != [] && Head(s).width > 1
    ensures Continuation(s[1])
  {
    var lead := LeadOf(s[0]);
    ScanContinues(s, 1, lead, lead.bits, 1);
  }

  /**
    Reading again at the cursor gives the same character, except for an overlong carriage
    return that a line feed follows: there the cursor stands inside the overlong sequence.
   */
  lemma Reread(source: seq<Byte>, i: nat, p: Position)
    requires i < |source|
    ensures var c := ReadAt(source, i, p);
            ReadAt(source, c.start, c.pos) == c <==> !(c.current == LF && Continuation(source[c.start]))
  {
    var c := ReadAt(source, i, p);
    var s := source[i..];
    var s' := source[c.start..];
    if CrLf(s) {
      assert s'[0] == s[1];
      if Head(s).width == 1 {
        HeadOfLineFeed(s');
      } else {
        LongHeadContinues(s);
        HeadOfContinuation(s');
      }
    } else if Continuation(source[i]) {
      HeadOfContinuation(s);
    }
  }

  /** Such a sequence exists: E0 80 8D is accepted as U+000D. */
  lemma RereadCanDiffer(p: Position)
    ensures var source := [0xE0, 0x80, 0x8D, 0x0A];
            var c := ReadAt(source, 0, p);
            c.current == LF && ReadAt(source, c.start, c.pos).current == REPLACEMENT
  {
    var source: seq<Byte> := [0xE0, 0x80, 0x8D, 0x0A];
    assert source[0..] == [0xE0, 0x80, 0x8D] + [0x0A];
    Gather3(0xE0, 0x80, 0x8D, [0x0A]);
    HeadOfContinuation(source[1..]);
  }

  /** The line feeds among the code points delivered from byte i on. */
  function LineFeedsFrom(source: seq<Byte>, i: nat): nat
    requires i <= |source|
    decreases |source| - i
  {
    if i == |source| then 0
    else
      var c := CharAt(source, i);
      LineFeedsFrom(source, c.start + c.width) + if c.point == LF then 1 else 0
  }

  /** The line of a character: one more than the line feeds delivered before it. */
  function LineAt(source: seq<Byte>, i: nat): int
    requires i <= |source|
  {
    1 + LineFeedsFrom(source, 0) - LineFeedsFrom(source, i)
  }

  /** Leaving a character moves the line on exactly at a line feed. */
  lemma LineStep(source: seq<Byte>, i: nat)
    requires i < |source|
    ensures LineAt(source, NextStart(source, i)) == LineAt(source, i) + if CharAt(source, i).point == LF then 1 else 0
  {
  }

  /** Bytes that only continue a sequence hold no line feed. */
  lemma {:induction false} ContinuationsHold(source: seq<Byte>, i: nat, j: nat)
    requires i <= j <= |source| && forall k :: i <= k < j ==> Continuation(source[k])
    ensures LineFeedsFrom(source, i) == LineFeedsFrom(source, j)
    decreases j - i
  {
    if i < j {
      HeadOfContinuation(source[i..]);
      ContinuationsHold(source, i + 1, j);
    }
  }

  lemma HeadContinues(s: seq<Byte>)
    requires s != []
    ensures forall k :: 1 <= k < Head(s).width ==> Continuation(s[k])
  {
    var lead := LeadOf(s[0]);
    forall k | 1 <= k < Head(s).width
      ensures Continuation(s[k])
    {
      ScanContinues(s, 1, lead, lead.bits, k);
    }
  }

  /** The cursor of a character is on its line, even inside an overlong carriage return. */
  lemma LineAtCursor(source: seq<Byte>, i: nat)
    requires i < |source|
    ensures LineAt(source, CharAt(source, i).start) == LineAt(source, i)
  {
    var s := source[i..];
    if CrLf(s) {
      var last := i + Head(s).width;
      assert source[last] == s[Head(s).width] == LF;
      HeadContinues(s);
      assert forall k :: i + 1 <= k < last ==> source[k] == s[k - i];
      ContinuationsHold(source, i + 1, last);
      HeadOfLineFeed(source[last..]);
    }
  }

  /** Where n characters further on start, or the end. */
  function Skip(source: seq<Byte>, i: nat, n: nat): (j: nat)
    requires i <= |source|
    ensures j <= |source|
    decreases n
  {
    if n == 0 || i == |source| then i else Skip(source, NextStart(source, i), n - 1)
  }

  lemma {:induction false} SkipMore(source: seq<Byte>, i: nat, n: nat)
    requires i <= |source|
    ensures var j := Skip(source, i, n);
            Skip(source, i, n + 1) == if j == |source| then j else NextStart(source, j)
    decreases n
  {
    if n > 0 && i < |source| {
      SkipMore(source, NextStart(source, i), n - 1);
    }
  }

  class Utf8Iterator {
    const source: seq<Byte>
    const tabStop: nat
    var start: nat
    var width: nat
    var current: int
    var pos: Position
    var mark: nat
    var markPos: Position

    /** Where the current character was read, and at what position. */
    ghost var readAt: nat
    ghost var readPos: Position

    ghost function At(): Cursor
      reads this`start, this`width, this`current, this`pos
    {
      Cursor(start, width, current, pos)
    }

    /**
      The offset is the cursor's distance from the start of the source, and the line is one
      more than the line feeds delivered before the current character.
     */
    ghost predicate Valid()
      reads this
    {
      && tabStop > 0
      && pos.offset == start
      && (if start < |source| then
            readAt < |source| && At() == ReadAt(source, readAt, readPos) && pos.line == LineAt(source, readAt)
          else
            current == EOF && pos.line == LineAt(source, |source|))
    }

    /** The mark, when it is before the end, holds the offset and the line of a character. */
    ghost predicate Marked()
      reads this
    {
      mark < |source| ==> markPos.offset == mark && markPos.line == LineAt(source, mark)
    }

    /** utf8iterator_init. */
    constructor (source: seq<Byte>, tabStop: nat)
      requires tabStop > 0
      ensures Valid() && Marked()
      ensures this.source == source && this.tabStop == tabStop && readPos == Position(1, 1, 0)
      ensures if source == [] then current == EOF && pos == readPos else current != EOF && readAt == 0
    {
      this.source := source;
      this.tabStop := tabStop;
      start := 0;
      width := 0;
      current := EOF;
      pos := Position(1, 1, 0);
      mark, markPos := 0, Position(1, 1, 0);
      readAt, readPos := 0, Position(1, 1, 0);
      new;
      if source != [] {
        ReadChar();
      }
    }

    /** read_char. */
    method ReadChar()
      requires start < |source|
      modifies this`start, this`width, this`current, this`pos, this`readAt, this`readPos
      ensures readAt == old(start) && readPos == old(pos)
      ensures At() == ReadAt(source, readAt, readPos)
    {
      readAt, readPos := start, pos;
      var point;
      point, width := Decode(source[start..]);
      if point == CR {
        if start + width < |source| && source[start + width] == LF {
          start := start + 1;
          pos := pos.(offset := pos.offset + 1);
        }
        point := LF;
      }
      current := point;
    }

    /** utf8iterator_next. Past the end it only moves the cursor on by the last width. */
    method Next()
      requires Valid()
      modifies this`start, this`width, this`current, this`pos, this`readAt, this`readPos
      ensures Valid()
      ensures old(current) == EOF ==> current == EOF
      ensures old(current) != EOF ==>
        var next := NextStart(source, old(readAt));
        if next == |source| then current == EOF else current != EOF && readAt == next
      ensures old(current) == 0xA ==> pos.column == 1
      ensures old(current) == 0x9 ==> pos.column == (old(pos.column) / tabStop + 1) * tabStop
      ensures old(current) != 0xA && old(current) != 0x9 ==> pos.column == old(pos.column) + 1
    {
      if start < |source| {
        LineStep(source, readAt);
      }
      start := start + width;
      UpdatePosition();
      if start < |source| {
        ReadChar();
      } else {
        current := EOF;
      }
    }

    /** update_position: by the character just left. */
    method UpdatePosition()
      requires tabStop > 0
      modifies this`pos
      ensures pos.offset == old(pos.offset) + width
      ensures pos.line == old(pos.line) + if current == LF then 1 else 0
      ensures current == LF ==> pos.column == 1
      ensures current == TAB ==>
        && pos.column == (old(pos.column) / tabStop + 1) * tabStop
        && old(pos.column) < pos.column <= old(pos.column) + tabStop
      ensures current != LF && current != TAB ==> pos.column == old(pos.column) + 1
    {
      pos := pos.(offset := pos.offset + width);
      if current == LF {
        pos := pos.(line := pos.line + 1, column := 1);
      } else if current == TAB {
        TabStop(pos.column, tabStop);
        pos := pos.(column := (pos.column / tabStop + 1) * tabStop);
      } else {
        pos := pos.(column := pos.column + 1);
      }
    }

    /** utf8iterator_mark. */
    method Mark()
      requires Valid()
      modifies this`mark, this`markPos
      ensures Valid() && Marked() && mark == start && markPos == pos
    {
      if start < |source| {
        LineAtCursor(source, readAt);
      }
      mark := start;
      markPos := pos;
    }

    /** utf8iterator_reset. It reads a character, so the mark must have been set before the end. */
    method Reset()
      requires mark < |source| && Marked() && tabStop > 0
      modifies this`start, this`width, this`current, this`pos, this`readAt, this`readPos
      ensures Valid() && current != EOF && readAt == mark
      ensures At() == ReadAt(source, mark, markPos)
    {
      start := mark;
      pos := markPos;
      ReadChar();
    }

    /** Any number of steps: to the character that many further on, or to the end. */
    method Advance(n: nat)
      requires Valid()
      modifies this`start, this`width, this`current, this`pos, this`readAt, this`readPos
      ensures Valid()
      ensures old(current) == EOF ==> current == EOF
      ensures old(current) != EOF ==>
        var j := Skip(source, old(readAt), n);
        if j == |source| then current == EOF else current != EOF && readAt == j
    {
      for k := 0 to n
        invariant Valid()
        invariant old(current) == EOF ==> current == EOF
        invariant old(current) != EOF ==>
          var j := Skip(source, old(readAt), k);
          if j == |source| then current == EOF else current != EOF && readAt == j
      {
        if old(current) != EOF {
          SkipMore(source, old(readAt), k);
        }
        Next();
      }
    }

    /**
      A mark before the end, any number of steps and a reset leave everything as it was, unless
      the marked character was an overlong carriage return that a line feed follows.
     */
    method LookAhead(n: nat)
      requires Valid() && current != EOF
      modifies this
      ensures Valid() && Marked() && current != EOF && readAt == old(start)
      ensures At() == old(At()) <==> !(old(current) == LF && Continuation(source[old(start)]))
    {
      ghost var c := At();
      Reread(source, readAt, readPos);
      Mark();
      Advance(n);
      Reset();
      assert At() == ReadAt(source, c.start, c.pos);
    }

    /** Reads to the end; what has been read and what is left always make up the whole. */
    method Drain() returns (points: seq<nat>)
      requires Valid() && current != EOF
      modifies this`start, this`width, this`current, this`pos, this`readAt, this`readPos
      ensures Valid() && current == EOF
      ensures points == DeliverFrom(source, old(readAt))
    {
      points := [];
      ghost var all, from := DeliverFrom(source, readAt), readAt;
      while current != EOF
        invariant Valid()
        invariant from <= |source| && if current == EOF then from == |source| else from == readAt
        invariant Joined(points, source, from) == all
        decreases |source| - from
      {
        Join(points, source, readAt);
        points := points + [current];
        from := start + width;
        Next();
      }
    }
  }

  /** What has been read followed by what is still to come. */
  ghost function Joined(points: seq<nat>, source: seq<Byte>, i: nat): seq<nat>
    requires i <= |source|
  {
    points + DeliverFrom(source, i)
  }

  lemma Join(points: seq<nat>, source: seq<Byte>, i: nat)
    requires i < |source|
    ensures var c := CharAt(source, i);
            Joined(points, source, i) == Joined(points + [c.point], source, c.start + c.width)
  {
  }

  /** The decoding loop of read_char. */
  method Decode(s: seq<Byte>) returns (point: nat, width: nat)
    requires s != []
    ensures Char(point, width) == Head(s)
  {
    var lead := LeadOf(s[0]);
    var bad := lead.bad;
    point := lead.bits;
    width := lead.width;
    if width > |s| {
      width := |s|;
      bad := true;
    }
    var limit := width;
    var i := 1;
    while i < limit
      invariant 1 <= i <= limit == width
      invariant bad == (lead.bad || limit < lead.width)
      invariant Head(s) == Scan(s, i, lead, point)
    {
      var c := s[i];
      if c < 0x80 || c > 0xBF {
        width := i;
        bad := true;
        break;
      }
      point := point * 64 + (c - 0x80);
      i := i + 1;
    }
    if bad || point > 0x10FFFF || Forbidden(point) {
      point := REPLACEMENT;
    }
  }

  lemma TabStop(column: nat, tab: nat)
    requires tab > 0
    ensures column < (column / tab + 1) * tab <= column + tab
  {
    assert (column / tab + 1) * tab == tab * (column / tab) + tab;
  }

  /** Writing code points to a buffer and iterating over it delivers them, as HTML shows them. */
  method WriteThenRead(cs: seq<CodePoint>) returns (points: seq<nat>)
    ensures points == Expected(cs)
  {
    var buffer := new StringBuffer();
    for i := 0 to |cs|
      invariant buffer.Valid() && fresh(buffer) && fresh(buffer.data)
      invariant buffer.Contents() == EncodeAll(cs[..i])
    {
      buffer.AppendCodePoint(cs[i]);
      assert cs[..i + 1] == cs[..i] + [cs[i]];
      EncodeAllConcat(cs[..i], [cs[i]]);
    }
    assert cs[..|cs|] == cs;
    var bytes := buffer.data[..buffer.length];
    RoundTrip(cs);
    DeliverFromSlice(bytes, 0);
    assert bytes[0..] == bytes;
    var iter := new Utf8Iterator(bytes, 8);
    if bytes == [] {
      return [];
    }
    points := iter.Drain();
  }

  lemma {:induction false} EncodeAllConcat(a: seq<CodePoint>, b: seq<CodePoint>)
    ensures EncodeAll(a + b) == EncodeAll(a) + EncodeAll(b)
    decreases |a|
  {
    if a == [] {
      assert a + b == b;
    } else {
      assert (a + b)[1..] == a[1..] + b;
      EncodeAllConcat(a[1..], b);
    }
  }
}
