/**
 * The growable character buffer used for file contents and path building
 * (`br.edu.fs.simulator.util.MyStringBuilder`): a `char` array `value` whose
 * first `count` characters are the text.
 */
module Util {
  import opened Wrappers

  /** Capacity of a buffer made by the no-argument constructor, and the slack
      added on top of the initial text by the string constructor. */
  const DefaultCapacity: nat := 16

  /** The exception thrown for an index or range outside the text. */
  datatype IndexError = StringIndexOutOfBounds

  /** Java's view of a possibly-null string argument: `null` is appended or
      inserted as the four characters "null". */
  function OrNull(str: Option<string>): (s: string)
    ensures str.Some? ==> s == str.value
    ensures str.None? ==> s == "null" && |s| == 4
  {
    match str
    case Some(t) => t
    case None => "null"
  }

  /** The text `s` with `t` inserted at `offset`. */
  function Inserted(s: string, offset: nat, t: string): (r: string)
    requires offset <= |s|
    ensures |r| == |s| + |t|
    ensures r[..offset] == s[..offset] && r[offset..offset + |t|] == t && r[offset + |t|..] == s[offset..]
  {
    s[..offset] + t + s[offset..]
  }

  /** The text `s` without the characters at positions `start` up to (not including) `end`. */
  function Removed(s: string, start: nat, end: nat): (r: string)
    requires start <= end <= |s|
    ensures |r| == |s| - (end - start)
    ensures r[..start] == s[..start] && r[start..] == s[end..]
  {
    s[..start] + s[end..]
  }

  /** Inserting a text and then deleting the same range gives back the original. */
  lemma RemovedUndoesInserted(s: string, offset: nat, t: string)
    requires offset <= |s|
    ensures Removed(Inserted(s, offset, t), offset, offset + |t|) == s
  {
    var r := Inserted(s, offset, t);
    assert r[..offset] + r[offset + |t|..] == s[..offset] + s[offset..];
    assert s[..offset] + s[offset..] == s;
  }

  /** Deleting a single character removes exactly that character: every later
      character moves one place to the left. */
  lemma RemovedOneShiftsLeft(s: string, index: nat)
    requires index < |s|
    ensures forall k :: 0 <= k < |s| - 1 ==>
      Removed(s, index, index + 1)[k] == if k < index then s[k] else s[k + 1]
  {
    var r := Removed(s, index, index + 1);
    forall k | 0 <= k < |s| - 1
      ensures r[k] == if k < index then s[k] else s[k + 1]
    {
      if k < index {
        assert r[k] == r[..index][k];
      } else {
        assert r[k] == r[index..][k - index];
      }
    }
  }

  /** The capacity `expandCapacity` moves to: twice the old capacity plus two,
      or the requested minimum when that is larger. */
  function Grown(capacity: nat, minimumCapacity: nat): (n: nat)
    ensures n >= minimumCapacity && n >= 2 * capacity + 2
    ensures n == minimumCapacity || n == 2 * capacity + 2
  {
    if 2 * capacity + 2 < minimumCapacity then minimumCapacity else 2 * capacity + 2
  }

  /** The pieces of three joined sequences. */
  lemma TakeOfConcat<T>(a: seq<T>, b: seq<T>, c: seq<T>)
    ensures (a + b + c)[..|a|] == a && (a + b + c)[|a|..] == b + c
    ensures (a + b + c)[..|a| + |b|] == a + b
    ensures a + (b + c) == a + b + c
  {
    assert (a + b + c)[|a|..] == b + c;
  }

  /** What `insert` leaves in an array `before` holding `count` characters
      with room for `s`: the tail from `offset` copied up by `|s|`, then `s`
      written at `offset`; the first `count + |s|` characters are the text
      with `s` inserted. */
  lemma InsertShape(before: seq<char>, count: nat, offset: nat, s: string)
    requires offset <= count && count + |s| <= |before|
    ensures var shifted := before[..offset + |s|] + before[offset..count] + before[count + |s|..];
            var filled := shifted[..offset] + s + shifted[offset + |s|..];
            filled[..count + |s|] == Inserted(before[..count], offset, s)
  {
    var text := before[..count];
    var tail := before[offset..count];
    var shifted := before[..offset + |s|] + tail + before[count + |s|..];
    TakeOfConcat(before[..offset + |s|], tail, before[count + |s|..]);
    assert shifted[..offset] == text[..offset];
    var filled := shifted[..offset] + s + shifted[offset + |s|..];
    assert filled == text[..offset] + s + (tail + before[count + |s|..]);
    TakeOfConcat(text[..offset] + s, tail, before[count + |s|..]);
    assert tail == text[offset..];
  }

  /** `System.arraycopy`: copies `len` elements, as if through a temporary
      buffer, so overlapping source and destination ranges are handled. */
  method ArrayCopy(src: array<char>, srcPos: nat, dst: array<char>, dstPos: nat, len: nat)
    requires srcPos + len <= src.Length && dstPos + len <= dst.Length
    modifies dst
    ensures dst[..] == old(dst[..dstPos]) + old(src[srcPos..srcPos + len]) + old(dst[dstPos + len..])
  {
    var moved := src[srcPos..srcPos + len];
    ghost var before := dst[..];
    forall i | 0 <= i < len {
      dst[dstPos + i] := moved[i];
    }
    assert dst[..] == before[..dstPos] + moved + before[dstPos + len..];
  }

  /** `String.getChars`: writes the whole of `s` into `dst` from `dstBegin` on. */
  method GetChars(s: string, dst: array<char>, dstBegin: nat)
    requires dstBegin + |s| <= dst.Length
    modifies dst
    ensures dst[..] == old(dst[..dstBegin]) + s + old(dst[dstBegin + |s|..])
  {
    ghost var before := dst[..];
    forall i | 0 <= i < |s| {
      dst[dstBegin + i] := s[i];
    }
    assert dst[..] == before[..dstBegin] + s + before[dstBegin + |s|..];
  }

  class MyStringBuilder {
    var value: array<char>
    var count: nat

    /** The buffer invariant: the text fits in the array. */
    ghost predicate Valid()
      reads this
    {
      count <= value.Length
    }

    /** The text held: the first `count` characters of `value`. */
    ghost function Contents(): string
      reads this, value
      requires Valid()
    {
      value[..count]
    }

    constructor ()
      ensures Valid() && fresh(value)
      ensures value.Length == DefaultCapacity && Contents() == ""
    {
      value := new char[DefaultCapacity];
      count := 0;
    }

    constructor WithCapacity(capacity: nat)
      ensures Valid() && fresh(value)
      ensures value.Length == capacity && Contents() == ""
    {
      value := new char[capacity];
      count := 0;
    }

    constructor FromString(str: string)
      ensures Valid() && fresh(value)
      ensures value.Length == |str| + DefaultCapacity && Contents() == str
    {
      var a := new char[|str| + DefaultCapacity];
      GetChars(str, a, 0);
      value := a;
      count := |str|;
      new;
      assert value[..count] == value[..][..count];
    }

    /** Makes room for at least `minimumCapacity` characters, keeping the text. */
    method EnsureCapacity(minimumCapacity: nat)
      requires Valid()
      modifies this
      ensures Valid() && count == old(count) && Contents() == old(Contents())
      ensures value.Length >= minimumCapacity
      ensures if minimumCapacity > old(value.Length)
              then fresh(value) && value.Length == Grown(old(value.Length), minimumCapacity)
              else value == old(value)
    {
      if minimumCapacity > value.Length {
        ExpandCapacity(minimumCapacity);
      }
    }

    /** Moves the text into a fresh array of capacity `Grown(value.Length, minimumCapacity)`. */
    method ExpandCapacity(minimumCapacity: nat)
      requires Valid()
      modifies this
      ensures Valid() && count == old(count) && Contents() == old(Contents())
      ensures fresh(value) && value.Length == Grown(old(value.Length), minimumCapacity)
    {
      var newCapacity := value.Length * 2 + 2;
      if newCapacity < minimumCapacity {
        newCapacity := minimumCapacity;
      }
      var newValue := new char[newCapacity];
      ArrayCopy(value, 0, newValue, 0, count);
      assert newValue[..count] == newValue[..][..count];
      value := newValue;
    }

    method Length() returns (n: nat)
      requires Valid()
      ensures n == |Contents()|
    {
      n := count;
    }

    /** Appends `str` (or "null" when it is absent). */
    method Append(str: Option<string>)
      requires Valid()
      modifies this, value
      ensures Valid() && Contents() == old(Contents()) + OrNull(str)
      ensures value == old(value) || fresh(value)
    {
      var s := OrNull(str);
      var len := |s|;
      EnsureCapacity(count + len);
      GetChars(s, value, count);
      count := count + len;
      assert value[..count] == value[..][..count];
    }

    method AppendChar(c: char)
      requires Valid()
      modifies this, value
      ensures Valid() && Contents() == old(Contents()) + [c]
      ensures value == old(value) || fresh(value)
    {
      EnsureCapacity(count + 1);
      value[count] := c;
      count := count + 1;
    }

    /** Appends every character of `str`; `str` may even be this buffer's own array. */
    method AppendChars(str: array<char>)
      requires Valid()
      modifies this, value
      ensures Valid() && Contents() == old(Contents()) + old(str[..])
      ensures value == old(value) || fresh(value)
    {
      var len := str.Length;
      EnsureCapacity(count + len);
      ArrayCopy(str, 0, value, count, len);
      count := count + len;
      assert value[..count] == value[..][..count];
    }

    method ToString() returns (s: string)
      requires Valid()
      ensures s == Contents()
    {
      s := value[..count];
    }

    /** The character at `index`, or the out-of-bounds exception. */
    method CharAt(index: int) returns (r: Result<char, IndexError>)
      requires Valid()
      ensures 0 <= index < |Contents()| ==> r == Ok(Contents()[index])
      ensures !(0 <= index < |Contents()|) ==> r == Err(StringIndexOutOfBounds)
    {
      if index < 0 || index >= count {
        return Err(StringIndexOutOfBounds);
      }
      return Ok(value[index]);
    }

    /** Removes the character at `index`; out of range, throws and changes nothing. */
    method DeleteCharAt(index: int) returns (r: Outcome<IndexError>)
      requires Valid()
      modifies this, value
      ensures Valid() && value == old(value)
      ensures 0 <= index < old(count) ==>
                r == Pass && Contents() == Removed(old(Contents()), index, index + 1)
      ensures !(0 <= index < old(count)) ==>
                r == Fail(StringIndexOutOfBounds) && count == old(count) && Contents() == old(Contents())
    {
      if index < 0 || index >= count {
        return Fail(StringIndexOutOfBounds);
      }
      ghost var text := value[..count];
      ArrayCopy(value, index + 1, value, index, count - index - 1);
      count := count - 1;
      assert value[..count] == text[..index] + text[index + 1..];
      return Pass;
    }

    /** Removes the characters from `start` up to `end`, with `end` clamped to the
        length; a negative `start` or a `start` past the clamped end throws. */
    method Delete(start: int, end: int) returns (r: Outcome<IndexError>)
      requires Valid()
      modifies this, value
      ensures Valid() && value == old(value)
      ensures var e := if end > old(count) then old(count) else end;
              if 0 <= start <= e
              then r == Pass && Contents() == Removed(old(Contents()), start, e)
              else r == Fail(StringIndexOutOfBounds) && count == old(count) && Contents() == old(Contents())
    {
      if start < 0 {
        return Fail(StringIndexOutOfBounds);
      }
      var e := end;
      if e > count {
        e := count;
      }
      if start > e {
        return Fail(StringIndexOutOfBounds);
      }
      RemoveRange(start, e);
      return Pass;
    }

    /** The shift at the heart of `delete`: the characters from `e` on move
        down to `start`. */
    method RemoveRange(start: nat, e: nat)
      requires Valid() && start <= e <= count
      modifies this, value
      ensures Valid() && value == old(value)
      ensures Contents() == Removed(old(Contents()), start, e)
    {
      ghost var text := value[..count];
      ghost var before := value[..];
      var len := e - start;
      if len > 0 {
        ArrayCopy(value, start + len, value, start, count - e);
        assert value[..] == before[..start] + text[e..] + before[start + count - e..];
        TakeOfConcat(before[..start], text[e..], before[start + count - e..]);
        assert before[..start] == text[..start];
        count := count - len;
        assert value[..count] == value[..][..count];
      }
    }

    /** Inserts `str` (or "null") at `offset`; an offset outside 0..length throws
        and changes nothing. */
    method Insert(offset: int, str: Option<string>) returns (r: Outcome<IndexError>)
      requires Valid()
      modifies this, value
      ensures Valid() && (value == old(value) || fresh(value))
      ensures 0 <= offset <= old(count) ==>
                r == Pass && Contents() == Inserted(old(Contents()), offset, OrNull(str))
      ensures !(0 <= offset <= old(count)) ==>
                r == Fail(StringIndexOutOfBounds) && value == old(value) && count == old(count) &&
                Contents() == old(Contents())
    {
      if offset < 0 || offset > count {
        return Fail(StringIndexOutOfBounds);
      }
      InsertAt(offset, OrNull(str));
      return Pass;
    }

    /** The shift and copy at the heart of `insert`: room is made for `s`,
        then it is placed at `offset`. */
    method InsertAt(offset: nat, s: string)
      requires Valid() && offset <= count
      modifies this, value
      ensures Valid() && (value == old(value) || fresh(value))
      ensures Contents() == Inserted(old(Contents()), offset, s)
    {
      EnsureCapacity(count + |s|);
      FillGap(offset, s);
    }

    /** In an array with room for `s`: the characters from `offset` on move up
        by `|s|` and `s` fills the gap. */
    method FillGap(offset: nat, s: string)
      requires Valid() && offset <= count && count + |s| <= value.Length
      modifies this, value
      ensures Valid() && value == old(value)
      ensures Contents() == Inserted(old(Contents()), offset, s)
    {
      ghost var before, oldCount := value[..], count;
      ghost var text := before[..count];
      ArrayCopy(value, offset, value, offset + |s|, count - offset);
      ghost var shifted := value[..];
      assert shifted == before[..offset + |s|] + before[offset..count] + before[count + |s|..];
      GetChars(s, value, offset);
      ghost var filled := value[..];
      assert filled == shifted[..offset] + s + shifted[offset + |s|..];
      InsertShape(before, oldCount, offset, s);
      count := count + |s|;
      assert value[..count] == filled[..count] == Inserted(text, offset, s);
    }

    method Clear()
      requires Valid()
      modifies this
      ensures Valid() && value == old(value) && Contents() == ""
    {
      count := 0;
    }
  }
}
