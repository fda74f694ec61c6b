// What Validate accepts, as a grammar of code points, and what follows for
// lengths, indices, prefixes and concatenations.
module Utf8 {
  import opened Bytes

  predicate IsContinuation(b: byte) {
    0x80 <= b < 0xC0
  }

  /** The length of the code point a lead byte opens; 0 for no lead byte. */
  function LeadLength(b: byte): nat {
    if b < 0x80 then 1
    else if b < 0xC0 then 0
    else if b < 0xE0 then 2
    else if b < 0xF0 then 3
    else if b < 0xF8 then 4
    else 0
  }

  /** One encoded code point in the sense of Validate: a lead byte with the right
      number of continuation bytes, surrogates excluded. */
  predicate IsCodePoint(c: seq<byte>) {
    && c != [] && |c| == LeadLength(c[0])
    && (forall i :: 1 <= i < |c| ==> IsContinuation(c[i]))
    && !(c[0] == 0xED && c[1] >= 0xA0)
  }

  function Flatten(cs: seq<seq<byte>>): seq<byte> {
    if cs == [] then [] else cs[0] + Flatten(cs[1..])
  }

  ghost predicate IsText(cs: seq<seq<byte>>) {
    forall c <- cs :: IsCodePoint(c)
  }

  /** A string is valid when it is a sequence of code points. */
  ghost predicate IsValid(s: seq<byte>) {
    exists cs :: IsText(cs) && Flatten(cs) == s
  }

  // Decoding

  predicate StartsWell(s: seq<byte>)
    requires s != []
  {
    LeadLength(s[0]) != 0 && LeadLength(s[0]) <= |s| && IsCodePoint(s[..LeadLength(s[0])])
  }

  /** The string can be cut into code points from the left. */
  predicate Decodes(s: seq<byte>) {
    s == [] || (StartsWell(s) && Decodes(s[LeadLength(s[0])..]))
  }

  function Decode(s: seq<byte>): seq<seq<byte>>
    requires Decodes(s)
  {
    if s == [] then [] else [s[..LeadLength(s[0])]] + Decode(s[LeadLength(s[0])..])
  }

  /** Decoding finds the only way to read a string as code points. */
  lemma {:induction false} DecodesFlatten(cs: seq<seq<byte>>)
    requires IsText(cs)
    ensures Decodes(Flatten(cs)) && Decode(Flatten(cs)) == cs
  {
    if cs != [] {
      var c, rest := cs[0], cs[1..];
      assert c in cs;
      assert IsText(rest) by { forall d | d in rest ensures IsCodePoint(d) { assert d in cs; } }
      DecodesFlatten(rest);
      var s := Flatten(cs);
      assert s[0] == c[0] && s[..LeadLength(s[0])] == c && s[LeadLength(s[0])..] == Flatten(rest);
      assert cs == [c] + rest;
    }
  }

  lemma {:induction false} DecodeIsText(s: seq<byte>)
    requires Decodes(s)
    ensures IsText(Decode(s)) && Flatten(Decode(s)) == s
  {
    hide IsCodePoint;
    if s != [] {
      var n := LeadLength(s[0]);
      DecodeIsText(s[n..]);
      assert Decode(s)[1..] == Decode(s[n..]);
      assert s == s[..n] + s[n..];
    }
  }

  lemma ValidIffDecodes(s: seq<byte>)
    ensures IsValid(s) <==> Decodes(s)
  {
    if IsValid(s) {
      var cs :| IsText(cs) && Flatten(cs) == s;
      DecodesFlatten(cs);
    }
    if Decodes(s) {
      DecodeIsText(s);
    }
  }

  // Lengths and indices

  /** How CalculateLength and ByteIndexOfChar see a code point begin. */
  function CountLeads(s: seq<byte>): nat {
    if s == [] then 0 else CountLeads(s[..|s| - 1]) + if IsContinuation(s[|s| - 1]) then 0 else 1
  }

  lemma {:induction false} CountLeadsConcat(a: seq<byte>, b: seq<byte>)
    ensures CountLeads(a + b) == CountLeads(a) + CountLeads(b)
  {
    if b == [] {
      assert a + b == a;
    } else {
      CountLeadsConcat(a, b[..|b| - 1]);
      assert (a + b)[..|a + b| - 1] == a + b[..|b| - 1];
    }
  }

  lemma {:induction false} CountContinuations(s: seq<byte>)
    requires forall b <- s :: IsContinuation(b)
    ensures CountLeads(s) == 0
  {
    if s != [] {
      CountContinuations(s[..|s| - 1]);
    }
  }

  lemma CountOne(c: seq<byte>)
    requires IsCodePoint(c)
    ensures CountLeads(c) == 1
  {
    assert c == c[..1] + c[1..];
    CountLeadsConcat(c[..1], c[1..]);
    CountContinuations(c[1..]);
    assert c[..1][..0] == [];
  }

  /** The number of bytes that are no continuation is the number of code points. */
  lemma {:induction false} CountIsLength(cs: seq<seq<byte>>)
    requires IsText(cs)
    ensures CountLeads(Flatten(cs)) == |cs|
  {
    if cs != [] {
      assert cs[0] in cs;
      assert IsText(cs[1..]) by { forall d | d in cs[1..] ensures IsCodePoint(d) { assert d in cs; } }
      CountLeadsConcat(cs[0], Flatten(cs[1..]));
      CountOne(cs[0]);
      CountIsLength(cs[1..]);
    }
  }

  lemma FlattenCons(cs: seq<seq<byte>>)
    requires cs != []
    ensures Flatten(cs) == cs[0] + Flatten(cs[1..])
  {
  }

  lemma {:induction false} FlattenConcat(a: seq<seq<byte>>, b: seq<seq<byte>>)
    ensures Flatten(a + b) == Flatten(a) + Flatten(b)
  {
    if a == [] {
      assert a + b == b;
    } else {
      FlattenConcat(a[1..], b);
      FlattenCons(a + b);
      FlattenCons(a);
      hide Flatten;
      assert (a + b)[1..] == a[1..] + b && (a + b)[0] == a[0];
      assert a[0] + (Flatten(a[1..]) + Flatten(b)) == a[0] + Flatten(a[1..]) + Flatten(b);
    }
  }

  /** Valid strings concatenate to a valid string and their lengths add. */
  lemma ConcatValid(a: seq<byte>, b: seq<byte>)
    requires IsValid(a) && IsValid(b)
    ensures IsValid(a + b) && CountLeads(a + b) == CountLeads(a) + CountLeads(b)
  {
    var x :| IsText(x) && Flatten(x) == a;
    var y :| IsText(y) && Flatten(y) == b;
    FlattenConcat(x, y);
    CountLeadsConcat(a, b);
  }

  /** Where the k-th code point starts. */
  function StartOf(cs: seq<seq<byte>>, k: nat): nat
    requires k <= |cs|
  {
    |Flatten(cs[..k])|
  }

  /** The start of a code point, told by counting: k code points begin before it,
      and one begins there. */
  lemma StartByCount(cs: seq<seq<byte>>, k: nat)
    requires IsText(cs) && k < |cs|
    ensures var s, i := Flatten(cs), StartOf(cs, k);
            i < |s| && CountLeads(s[..i]) == k && !IsContinuation(s[i]) && s[..i] == Flatten(cs[..k])
  {
    var before, rest := cs[..k], cs[k..];
    assert cs == before + rest;
    FlattenConcat(before, rest);
    assert IsText(before) by { forall d | d in before ensures IsCodePoint(d) { assert d in cs; } }
    CountIsLength(before);
    assert rest[0] in cs;
    assert Flatten(cs)[..StartOf(cs, k)] == Flatten(before);
    assert Flatten(cs)[StartOf(cs, k)] == rest[0][0];
  }

  lemma {:induction false} CountMonotone(s: seq<byte>, i: nat, j: nat)
    requires i <= j <= |s|
    ensures CountLeads(s[..i]) <= CountLeads(s[..j])
    decreases j
  {
    if i < j {
      CountMonotone(s, i, j - 1);
      assert s[..j][..j - 1] == s[..j - 1];
    }
  }

  /** Only one byte has k code points before it and begins one. */
  lemma StartUnique(s: seq<byte>, i: nat, j: nat)
    requires i < |s| && j < |s| && !IsContinuation(s[i]) && !IsContinuation(s[j])
    requires CountLeads(s[..i]) == CountLeads(s[..j])
    ensures i == j
  {
    if i < j {
      assert s[..i + 1][..i] == s[..i];
      CountMonotone(s, i + 1, j);
    } else if j < i {
      assert s[..j + 1][..j] == s[..j];
      CountMonotone(s, j + 1, i);
    }
  }

  // RFC 3629

  /** One code point as section 4 of RFC 3629 admits it. */
  predicate IsRfcCodePoint(c: seq<byte>) {
    || (|c| == 1 && c[0] <= 0x7F)
    || (|c| == 2 && 0xC2 <= c[0] <= 0xDF && IsContinuation(c[1]))
    || (|c| == 3 && IsContinuation(c[2]) &&
        (|| (c[0] == 0xE0 && 0xA0 <= c[1] <= 0xBF)
         || (0xE1 <= c[0] <= 0xEC && IsContinuation(c[1]))
         || (c[0] == 0xED && 0x80 <= c[1] <= 0x9F)
         || (0xEE <= c[0] <= 0xEF && IsContinuation(c[1]))))
    || (|c| == 4 && IsContinuation(c[2]) && IsContinuation(c[3]) &&
        (|| (c[0] == 0xF0 && 0x90 <= c[1] <= 0xBF)
         || (0xF1 <= c[0] <= 0xF3 && IsContinuation(c[1]))
         || (c[0] == 0xF4 && 0x80 <= c[1] <= 0x8F)))
  }

  /** A byte without its marker bits. */
  function Digits(b: int, marker: int): int {
    b - marker
  }

  /** The bytes that Validate lets pass as one code point. */
  lemma CodePointIff(c: seq<byte>)
    ensures IsCodePoint(c) <==>
            || (|c| == 1 && c[0] <= 0x7F)
            || (|c| == 2 && 0xC0 <= c[0] <= 0xDF && 0x80 <= c[1] <= 0xBF)
            || (|c| == 3 && 0xE0 <= c[0] <= 0xEF && 0x80 <= c[1] <= (if c[0] == 0xED then 0x9F else 0xBF) && 0x80 <= c[2] <= 0xBF)
            || (|c| == 4 && 0xF0 <= c[0] <= 0xF7 && 0x80 <= c[1] <= 0xBF && 0x80 <= c[2] <= 0xBF && 0x80 <= c[3] <= 0xBF)
  {
  }

  /** The number a code point encodes. */
  function Scalar(c: seq<byte>): int
    requires IsCodePoint(c)
  {
    if |c| == 1 then c[0]
    else if |c| == 2 then Digits(c[0], 0xC0) * 0x40 + Digits(c[1], 0x80)
    else if |c| == 3 then Digits(c[0], 0xE0) * 0x1000 + Digits(c[1], 0x80) * 0x40 + Digits(c[2], 0x80)
    else Digits(c[0], 0xF0) * 0x40000 + Digits(c[1], 0x80) * 0x1000 + Digits(c[2], 0x80) * 0x40 + Digits(c[3], 0x80)
  }

  /** The least number that needs n bytes. */
  function LeastOfLength(n: nat): int {
    if n <= 1 then 0 else if n == 2 then 0x80 else if n == 3 then 0x800 else 0x10000
  }

  /** Validate accepts every code point of the standard, and beyond those exactly
      the overlong forms and the numbers above U+10FFFF. */
  lemma RfcIff(c: seq<byte>)
    ensures IsRfcCodePoint(c) <==> IsCodePoint(c) && LeastOfLength(|c|) <= Scalar(c) <= 0x10FFFF
  {
  }

  ghost predicate IsRfcText(s: seq<byte>) {
    exists cs :: (forall c <- cs :: IsRfcCodePoint(c)) && Flatten(cs) == s
  }

  /** What the standard admits is exactly what Validate accepts without overlong
      forms and numbers above U+10FFFF among its code points. */
  lemma RfcTextIff(s: seq<byte>)
    ensures IsRfcText(s) <==>
            Decodes(s) && forall c <- Decode(s) :: IsCodePoint(c) && LeastOfLength(|c|) <= Scalar(c) <= 0x10FFFF
  {
    hide IsRfcCodePoint, IsCodePoint, Scalar, LeastOfLength;
    if IsRfcText(s) {
      var cs :| (forall c <- cs :: IsRfcCodePoint(c)) && Flatten(cs) == s;
      forall c | c in cs ensures IsCodePoint(c) && LeastOfLength(|c|) <= Scalar(c) <= 0x10FFFF {
        RfcIff(c);
      }
      DecodesFlatten(cs);
    }
    if Decodes(s) && forall c <- Decode(s) :: IsCodePoint(c) && LeastOfLength(|c|) <= Scalar(c) <= 0x10FFFF {
      DecodeIsText(s);
      forall c | c in Decode(s) ensures IsRfcCodePoint(c) {
        RfcIff(c);
      }
    }
  }

  lemma RfcTextIsValid(s: seq<byte>)
    requires IsRfcText(s)
    ensures IsValid(s)
  {
    RfcTextIff(s);
    ValidIffDecodes(s);
  }

  lemma OnePoint(c: seq<byte>)
    requires IsCodePoint(c)
    ensures Decodes(c) && Decode(c) == [c] && IsValid(c)
  {
    assert Flatten([c]) == c + Flatten([]);
    DecodesFlatten([c]);
    ValidIffDecodes(c);
  }

  lemma NotInTheStandard(c: seq<byte>)
    requires IsCodePoint(c) && !IsRfcCodePoint(c)
    ensures IsValid(c) && !IsRfcText(c)
  {
    hide IsCodePoint, IsRfcCodePoint, Scalar, LeastOfLength, Decode, Decodes;
    OnePoint(c);
    RfcIff(c);
    RfcTextIff(c);
    assert c in [c];
  }

  /** An overlong form of 0 and a number above U+10FFFF, both accepted. */
  lemma BeyondTheStandard()
    ensures IsCodePoint([0xC0, 0x80]) && Scalar([0xC0, 0x80]) == 0 && !IsRfcCodePoint([0xC0, 0x80])
    ensures IsCodePoint([0xF7, 0xBF, 0xBF, 0xBF]) && Scalar([0xF7, 0xBF, 0xBF, 0xBF]) == 0x1FFFFF
    ensures !IsRfcCodePoint([0xF7, 0xBF, 0xBF, 0xBF])
    ensures IsValid([0xC0, 0x80]) && IsValid([0xF7, 0xBF, 0xBF, 0xBF])
    ensures !IsRfcText([0xC0, 0x80]) && !IsRfcText([0xF7, 0xBF, 0xBF, 0xBF])
  {
    NotInTheStandard([0xC0, 0x80]);
    NotInTheStandard([0xF7, 0xBF, 0xBF, 0xBF]);
  }
}
