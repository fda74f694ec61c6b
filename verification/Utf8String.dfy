// The UTF8 string class over a zero-terminated buffer.
module Utf8Strings {
  import opened Bytes
  import opened Utf8

  // The masks of Validate as arithmetic on the byte

  predicate TopBits110(b: byte) { b / 32 == 6 }
  predicate TopBits1110(b: byte) { b / 16 == 14 }
  predicate TopBits11110(b: byte) { b / 8 == 30 }
  predicate TopBits10(b: byte) { b / 64 == 2 }
  predicate Bits7And5(b: byte) { b / 128 == 1 && b / 32 % 2 == 1 }

  lemma Order(x: bv8, y: bv8)
    ensures x < y <==> x as int < y as int
  {
  }

  /** The masks themselves, for the bits x of any byte. */
  lemma Masks(x: bv8)
    ensures 0 <= x as int < 256
    ensures TopBits110(x as int) <==> x & 0xE0 == 0xC0
    ensures TopBits1110(x as int) <==> x & 0xF0 == 0xE0
    ensures TopBits11110(x as int) <==> x & 0xF8 == 0xF0
    ensures TopBits10(x as int) <==> x & 0xC0 == 0x80
    ensures Bits7And5(x as int) <==> x & 0xA0 == 0xA0
  {
    assert x & 0xE0 == 0xC0 <==> 0xC0 <= x < 0xE0;
    assert x & 0xF0 == 0xE0 <==> 0xE0 <= x < 0xF0;
    assert x & 0xF8 == 0xF0 <==> 0xF0 <= x < 0xF8;
    assert x & 0xC0 == 0x80 <==> 0x80 <= x < 0xC0;
    assert x & 0xA0 == 0xA0 <==> 0xA0 <= x < 0xC0 || 0xE0 <= x;
    Order(x, 0x80);
    Order(x, 0xA0);
    Order(x, 0xC0);
    Order(x, 0xE0);
    Order(x, 0xF0);
    Order(x, 0xF8);
  }

  /** A string is valid from i on when a code point starts at i and the string is
      valid behind it. */
  lemma DecodesStep(s: seq<byte>, i: nat)
    requires i < |s|
    ensures Decodes(s[i..]) <==>
            var n := LeadLength(s[i]);
            n != 0 && i + n <= |s| && IsCodePoint(s[i..i + n]) && Decodes(s[i + n..])
  {
    var n := LeadLength(s[i]);
    if i + n <= |s| {
      assert s[i..][..n] == s[i..i + n] && s[i..][n..] == s[i + n..];
    }
  }

  lemma MissingContinuation(s: seq<byte>, start: nat, i: nat)
    requires start < i <= |s| && i < start + LeadLength(s[start])
    requires i == |s| || !IsContinuation(s[i])
    ensures !Decodes(s[start..])
  {
    DecodesStep(s, start);
    var n := LeadLength(s[start]);
    if start + n <= |s| {
      assert s[start..start + n][i - start] == s[i];
    }
  }

  lemma Surrogate(s: seq<byte>, i: nat)
    requires i + 1 < |s| && s[i] == 0xED && s[i + 1] >= 0xA0
    ensures !Decodes(s[i..])
  {
    DecodesStep(s, i);
    if i + 3 <= |s| {
      assert s[i..i + 3][1] == s[i + 1];
    }
  }

  lemma DecodesEmpty(s: seq<byte>)
    requires s == []
    ensures Decodes(s)
  {
  }

  method Validate(s: seq<byte>) returns (valid: bool)
    ensures valid <==> IsValid(s)
  {
    hide Decodes;
    ValidIffDecodes(s);
    assert s[0..] == s;
    var i := 0;
    while i < |s|
      invariant 0 <= i <= |s|
      invariant Decodes(s) <==> Decodes(s[i..])
    {
      var lead := s[i];
      var oneLess;
      DecodesStep(s, i);
      if lead <= 0x7F {
        oneLess := 0;
      } else if TopBits110(lead) {
        oneLess := 1;
      } else if lead == 0xED && i < |s| - 1 && Bits7And5(s[i + 1]) {
        Surrogate(s, i);
        return false;
      } else if TopBits1110(lead) {
        oneLess := 2;
      } else if TopBits11110(lead) {
        oneLess := 3;
      } else {
        return false;
      }
      ghost var start := i;
      assert LeadLength(lead) == oneLess + 1;
      var j := 0;
      while j < oneLess && i < |s|
        invariant 0 <= j <= oneLess && i == start + j < |s|
        invariant forall k :: start < k <= i ==> IsContinuation(s[k])
      {
        i := i + 1;
        if i == |s| || !TopBits10(s[i]) {
          MissingContinuation(s, start, i);
          return false;
        }
        j := j + 1;
      }
      ghost var point := s[start..start + oneLess + 1];
      assert forall k :: 1 <= k < |point| ==> IsContinuation(point[k]);
      i := i + 1;
    }
    DecodesEmpty(s[i..]);
    valid := true;
  }

  /** The length that Shrink leaves. */
  function ShrunkLength(length: nat, maxChars: nat): (n: nat)
    ensures n == if length > maxChars + 1 || maxChars == 0 then maxChars else length
  {
    if maxChars == 0 then 0 else if length > maxChars + 1 then maxChars else length
  }

  /** Shrink promises at most maxChars characters. A string of one more is not
      cut, so it keeps the promise exactly when that is not the length. */
  lemma ShrinkKeepsPromiseIff(length: nat, maxChars: nat)
    ensures ShrunkLength(length, maxChars) <= maxChars <==> maxChars == 0 || length != maxChars + 1
  {
  }

  ghost predicate NoZero(s: seq<byte>) {
    forall b <- s :: b != 0
  }

  lemma CountNothing()
    ensures CountLeads([]) == 0
  {
  }

  lemma CountNext(s: seq<byte>, i: nat)
    requires i < |s|
    ensures CountLeads(s[..i + 1]) == CountLeads(s[..i]) + if IsContinuation(s[i]) then 0 else 1
  {
    assert s[..i + 1][..i] == s[..i];
  }

  lemma EmptyText()
    ensures IsValid([]) && CountLeads([]) == 0 && Flatten([]) == []
  {
    assert Flatten([]) == [];
  }

  /** The bytes in front of the k-th code point. */
  lemma Prefix(cs: seq<seq<byte>>, s: seq<byte>, k: nat)
    requires IsText(cs) && k < |cs| && Flatten(cs) == s && NoZero(s)
    ensures StartOf(cs, k) < |s|
    ensures var t := s[..StartOf(cs, k)];
            t == Flatten(cs[..k]) && IsValid(t) && CountLeads(t) == k && NoZero(t)
  {
    StartByCount(cs, k);
    assert IsText(cs[..k]) by { forall c | c in cs[..k] ensures IsCodePoint(c) { assert c in cs; } }
    forall b | b in s[..StartOf(cs, k)] ensures b != 0 {
      assert b in s;
    }
  }

  class Utf8String {
    var data: array?<byte>      // FData, null for an empty string
    var rawLength: nat          // CStyle::FLength, in bytes
    var length: nat             // UTF8::FLength, in code points

    ghost predicate Terminated()
      reads this, data
    {
      if data == null then rawLength == 0
      else rawLength < data.Length && data[rawLength] == 0 && NoZero(data[..rawLength])
    }

    ghost function Text(): seq<byte>
      reads this, data
      requires Terminated()
    {
      if data == null then [] else data[..rawLength]
    }

    ghost predicate Valid()
      reads this, data
    {
      Terminated() && IsValid(Text()) && length == CountLeads(Text())
    }

    /** The empty string. */
    constructor Empty()
      ensures Valid() && Text() == [] && data == null && length == 0
    {
      data, rawLength, length := null, 0, 0;
      new;
      assert Flatten([]) == [];
    }

    /** The constructor from a C string, for bytes that have passed Validate. */
    constructor Copy(s: seq<byte>)
      requires IsValid(s) && NoZero(s)
      ensures Valid() && Text() == s && (data != null ==> fresh(data))
    {
      var buffer := new byte[|s| + 1](i => if 0 <= i < |s| then s[i] else 0);
      data, rawLength, length := buffer, |s|, 0;
      new;
      assert data[..rawLength] == s;
      CalculateLength();
    }

    /** Counts up to the terminator; the string itself stays as it is. */
    method CalculateLength()
      requires Terminated()
      modifies this`length
      ensures Terminated() && length == CountLeads(Text())
    {
      length := 0;
      if rawLength > 0 {
        var current := 0;
        forall i | 0 <= i < rawLength ensures data[i] != 0 {
          assert data[..rawLength][i] in data[..rawLength];
        }
        while data[current] != 0
          invariant 0 <= current <= rawLength
          invariant length == CountLeads(data[..current])
          decreases rawLength - current
        {
          assert current < rawLength;
          assert data[..current + 1][..current] == data[..current];
          length := length + if TopBits10(data[current]) then 0 else 1;
          current := current + 1;
        }
      }
    }

    lemma CodePoints() returns (cs: seq<seq<byte>>)
      requires Valid()
      ensures Decodes(Text()) && cs == Decode(Text()) && IsText(cs) && Flatten(cs) == Text() && |cs| == length
    {
      ValidIffDecodes(Text());
      DecodeIsText(Text());
      cs := Decode(Text());
      CountIsLength(cs);
    }

    /** The index of the first byte of a code point. */
    method ByteIndexOfChar(charIndex: nat) returns (index: nat)
      requires Valid() && charIndex < length
      ensures Decodes(Text()) && charIndex < |Decode(Text())|
      ensures index == StartOf(Decode(Text()), charIndex)
    {
      hide Decodes, Flatten, IsCodePoint, IsValid;
      ghost var s := Text();
      ghost var cs := CodePoints();
      var i, count: nat := 0, 0;
      while i < rawLength && count <= charIndex
        invariant 0 <= i <= rawLength && count == CountLeads(s[..i]) <= charIndex + 1
        invariant count == charIndex + 1 ==> 0 < i && !IsContinuation(s[i - 1]) && CountLeads(s[..i - 1]) == charIndex
      {
        CountNext(s, i);
        assert data[i] == s[i];
        if !TopBits10(data[i]) {
          count := count + 1;
        }
        i := i + 1;
      }
      assert s[..rawLength] == s;
      assert count == charIndex + 1 by { CountIsLength(cs); }
      index := i - 1;
      StartByCount(cs, charIndex);
      StartUnique(s, index, StartOf(cs, charIndex));
    }

    /** Cuts behind maxChars code points, or not at all. */
    method Shrink(maxChars: nat)
      requires Valid()
      modifies this, data
      ensures Valid() && (data == null || data == old(data))
      ensures Decodes(old(Text())) && |Decode(old(Text()))| == old(length)
      ensures maxChars == 0 ==> Text() == [] && length == 0
      ensures 0 < maxChars && old(length) <= maxChars + 1 ==> Text() == old(Text()) && length == old(length)
      ensures 0 < maxChars && old(length) > maxChars + 1 ==>
                length == maxChars && Text() <= old(Text()) && |Text()| == StartOf(Decode(old(Text())), maxChars)
      ensures length == ShrunkLength(old(length), maxChars)
    {
      hide Decodes, IsCodePoint, IsValid, CountLeads;
      ghost var cs := CodePoints();
      ghost var s := Text();
      assert s[..|s|] == s;
      if maxChars == 0 {
        data, rawLength, length := null, 0, 0;
        EmptyText();
      } else if length > maxChars + 1 {
        var index := ByteIndexOfChar(maxChars);
        Prefix(cs, s, maxChars);
        data[index] := 0;
        rawLength := index;
        length := maxChars;
        assert data[..index] == s[..index];
      }
    }

    /** FHeap.Realloc: the bytes are still there, with room for more. */
    method Reallocate(more: nat)
      requires Terminated()
      modifies this`data
      ensures fresh(data) && data.Length == rawLength + more + 1
      ensures data[..rawLength] == old(Text())
    {
      var buffer := new byte[rawLength + more + 1];
      var from := data;
      if from != null {
        forall i | 0 <= i < rawLength { buffer[i] := from[i]; }
      }
      data := buffer;
    }

    /** std::copy of the other string with its terminator. */
    method CopyBehind(rhs: Utf8String, ghost left: seq<byte>, ghost right: seq<byte>)
      requires data != null && rhs != this && rhs.data != null && rhs.data != data && rhs.Terminated()
      requires data.Length == rawLength + rhs.rawLength + 1
      requires data[..rawLength] == left && NoZero(left) && rhs.Text() == right
      modifies this, data
      ensures data == old(data) && Terminated() && Text() == left + right
    {
      var at, from := rawLength, rhs.data;
      forall i | 0 <= i < rhs.rawLength + 1 { data[at + i] := from[i]; }
      rawLength := rawLength + rhs.rawLength;
      assert data[..at] == left;
      assert data[..rawLength] == left + right;
    }

    /** operator+=: the heap may refuse, then nothing has changed. There is no new
        validation; that the result is valid is ConcatValid. */
    method Append(rhs: Utf8String, granted: bool) returns (ok: bool)
      requires Valid() && rhs.Valid() && rhs != this && (rhs.data == null || rhs.data != data)
      modifies this
      ensures Valid() && rhs.Valid() && rhs.Text() == old(rhs.Text())
      ensures ok <==> granted || rhs.Text() == []
      ensures Text() == old(Text()) + if ok then rhs.Text() else []
      ensures length == old(length) + if ok then rhs.length else 0
    {
      hide IsValid, CountLeads;
      if rhs.rawLength > 0 {
        if !granted {
          return false;
        }
        ghost var left, right := Text(), rhs.Text();
        Reallocate(rhs.rawLength);
        CopyBehind(rhs, left, right);
        ConcatValid(left, right);
      } else {
        CountNothing();
        assert Text() + rhs.Text() == Text();
      }
      CalculateLength();
      ok := true;
    }

    /** operator+: the heap may refuse the copy; the validation of the result cannot
        fail. */
    method Plus(rhs: Utf8String, granted: bool) returns (r: Utf8String?)
      requires Valid() && rhs.Valid()
      ensures r != null <==> granted || Text() + rhs.Text() == []
      ensures r != null ==>
                fresh(r) && r.Valid() && r.Text() == Text() + rhs.Text() && r.length == length + rhs.length
    {
      hide IsValid, CountLeads;
      var left := if data == null then [] else data[..rawLength];
      var right := if rhs.data == null then [] else rhs.data[..rhs.rawLength];
      ConcatValid(left, right);
      var sum := if |right| == 0 then left else if |left| == 0 then right else left + right;
      assert sum == left + right;
      if |sum| > 0 && !granted {
        return null;
      }
      var valid := Validate(sum);
      assert valid;
      r := new Utf8String.Copy(sum);
    }
  }

  lemma AbIsValid()
    ensures IsValid([0x61, 0x62]) && CountLeads([0x61, 0x62]) == 2
  {
    hide IsValid, CountLeads;
    OnePoint([0x61]);
    OnePoint([0x62]);
    ConcatValid([0x61], [0x62]);
    CountOne([0x61]);
    CountOne([0x62]);
    var a: seq<byte> := [0x61];
    assert a + [0x62] == [0x61, 0x62];
  }

  /** Shrink(1) leaves "ab" as it is. */
  method ShrinkLeavesTwo() returns (s: Utf8String)
    ensures s.Valid() && s.length == 2 && s.Text() == [0x61, 0x62]
  {
    hide IsValid, CountLeads, Decodes, StartOf;
    AbIsValid();
    s := new Utf8String.Copy([0x61, 0x62]);
    s.Shrink(1);
  }
}
