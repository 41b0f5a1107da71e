/**
  Gumbo's growable byte buffer. Capacity starts at ten bytes and doubles until an append
  fits; code points are appended in UTF-8.
 */
module StringBuffers {
  import opened Words
  import opened Utf8

  class StringBuffer {
    var data: array<Byte>
    var length: nat

    ghost predicate Valid()
      reads this
    {
      0 < data.Length && length <= data.Length
    }

    /** What has been appended so far. */
    ghost function Contents(): seq<Byte>
      requires Valid()
      reads this, data
    {
      data[..length]
    }

    constructor ()
      ensures Valid() && fresh(data) && data.Length == 10
      ensures Contents() == []
    {
      data := new Byte[10];
      length := 0;
    }

    /** maybe_resize_string_buffer: makes room, doubling the capacity only as often as needed. */
    method MaybeResize(additional: nat)
      requires Valid()
      modifies this
      ensures Valid() && (data == old(data) || fresh(data))
      ensures Contents() == old(Contents()) && length == old(length)
      ensures length + additional <= data.Length
      ensures if old(length) + additional <= old(data.Length) then data == old(data)
              else old(data.Length) < data.Length < 2 * (length + additional)
    {
      var newLength := length + additional;
      var newCapacity := data.Length;
      while newCapacity < newLength
        invariant data.Length <= newCapacity
        invariant newCapacity == data.Length || (data.Length < newLength && newCapacity < 2 * newLength)
        decreases newLength - newCapacity
      {
        newCapacity := 2 * newCapacity;
      }
      if newCapacity != data.Length {
        var newData := new Byte[newCapacity];
        for i := 0 to length
          modifies newData
          invariant newData[..i] == data[..i]
        {
          newData[i] := data[i];
        }
        assert newData[..length] == data[..length];
        data := newData;
      }
    }

    /** `data[length++] = b`. */
    method Push(b: Byte)
      requires Valid() && length < data.Length
      modifies this`length, data
      ensures Valid() && length == old(length) + 1
      ensures Contents() == old(Contents()) + [b]
    {
      data[length] := b;
      length := length + 1;
    }

    /** gumbo_string_buffer_append_codepoint. */
    method AppendCodePoint(c: CodePoint)
      requires Valid()
      modifies this, data
      ensures Valid() && (data == old(data) || fresh(data))
      ensures Contents() == old(Contents()) + Encode(c)
    {
      ghost var before, start, bytes := Contents(), length, Encode(c);
      var count, prefix := Shape(c);
      MaybeResize(count + 1);
      LeadByte(c, count, prefix);
      Push(prefix + SixBitGroup(c, count));
      for i := count downto 0
        modifies this`length, data
        invariant Valid() && start + count + 1 <= data.Length
        invariant length == start + count + 1 - i
        invariant Contents() == before + bytes[..count + 1 - i]
      {
        GroupByte(c, count, i);
        Push(0x80 + SixBitGroup(c, i) % 64);
      }
      assert bytes[..count + 1] == bytes;
    }

    /** gumbo_string_buffer_append_string. */
    method AppendString(str: seq<Byte>)
      requires Valid()
      modifies this, data
      ensures Valid() && (data == old(data) || fresh(data))
      ensures Contents() == old(Contents()) + str
    {
      MaybeResize(|str|);
      ghost var before := Contents();
      for i := 0 to |str|
        modifies data
        invariant data[..length] == before
        invariant data[length..length + i] == str[..i]
      {
        data[length + i] := str[i];
        assert data[length..length + i + 1] == data[length..length + i] + [str[i]];
      }
      assert data[..length + |str|] == before + str;
      length := length + |str|;
    }

    /** gumbo_string_buffer_to_string: the contents, NUL-terminated. */
    method ToString() returns (s: array<Byte>)
      requires Valid()
      ensures fresh(s) && s[..] == Contents() + [0]
    {
      s := new Byte[length + 1];
      for i := 0 to length
        modifies s
        invariant s[..i] == data[..i]
      {
        s[i] := data[i];
      }
      s[length] := 0;
    }
  }

  /** The number of continuation bytes and the mark of the first byte. */
  method Shape(c: CodePoint) returns (count: nat, prefix: nat)
    ensures count + 1 == |Encode(c)|
    ensures prefix == [0, 0xC0, 0xE0, 0xF0][count]
  {
    if c <= 0x7F {
      count, prefix := 0, 0;
    } else if c <= 0x7FF {
      count, prefix := 1, 0xC0;
    } else if c <= 0xFFFF {
      count, prefix := 2, 0xE0;
    } else {
      count, prefix := 3, 0xF0;
    }
  }

  /** `c >> (6 * i)`. */
  function SixBitGroup(c: CodePoint, i: nat): nat {
    if i == 0 then c else if i == 1 then c / 64 else if i == 2 then c / 4096 else c / 262144
  }

  lemma LeadByte(c: CodePoint, count: nat, prefix: nat)
    requires count + 1 == |Encode(c)|
    requires prefix == [0, 0xC0, 0xE0, 0xF0][count]
    ensures prefix + SixBitGroup(c, count) < 256
    ensures Encode(c)[..1] == [prefix + SixBitGroup(c, count)]
  {
  }

  lemma GroupByte(c: CodePoint, count: nat, i: nat)
    requires count + 1 == |Encode(c)| && i < count
    ensures Encode(c)[..count - i + 1] == Encode(c)[..count - i] + [0x80 + SixBitGroup(c, i) % 64]
  {
  }
}
