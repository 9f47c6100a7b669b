/**
 Well-formed UTF-8: which byte sequences are Rust strings, the encoding of one Unicode
 scalar value, and where a string may be sliced.
 */
module Utf8 {

  predicate Within(s: string, i: nat, lo: int, hi: int)
  {
    i < |s| && lo <= s[i] as int <= hi
  }

  predicate IsContinuation(c: char)
  {
    0x80 <= c as int <= 0xBF
  }

  /** Length of the well-formed sequence at the head of `s`; 0 when there is none. */
  function HeadLength(s: string): (n: nat)
    ensures n <= |s| && n <= 4
  {
    if s == [] then 0
    else
      var b := s[0] as int;
      if b < 0x80 then 1
      else if 0xC2 <= b <= 0xDF then if Within(s, 1, 0x80, 0xBF) then 2 else 0
      else if 0xE0 <= b <= 0xEF then
        if Within(s, 1, if b == 0xE0 then 0xA0 else 0x80, if b == 0xED then 0x9F else 0xBF) && Within(s, 2, 0x80, 0xBF)
        then 3 else 0
      else if 0xF0 <= b <= 0xF4 then
        if Within(s, 1, if b == 0xF0 then 0x90 else 0x80, if b == 0xF4 then 0x8F else 0xBF)
          && Within(s, 2, 0x80, 0xBF) && Within(s, 3, 0x80, 0xBF)
        then 4 else 0
      else 0
  }

  predicate Valid(s: string)
    decreases |s|
  {
    s == [] || (HeadLength(s) > 0 && Valid(s[HeadLength(s)..]))
  }

  predicate Ascii(s: string)
  {
    forall i :: 0 <= i < |s| ==> s[i] as int < 0x80
  }

  lemma {:induction false} AsciiValid(s: string)
    requires Ascii(s)
    ensures Valid(s)
    decreases |s|
  {
    if s != [] { AsciiValid(s[1..]); }
  }

  lemma HeadOfConcat(a: string, b: string)
    requires HeadLength(a) > 0
    ensures HeadLength(a + b) == HeadLength(a)
  {
    assert forall i :: 0 <= i < |a| ==> (a + b)[i] == a[i];
  }

  lemma {:induction false} ConcatValid(a: string, b: string)
    requires Valid(a) && Valid(b)
    ensures Valid(a + b)
    decreases |a|
  {
    if a == [] {
      assert a + b == b;
    } else {
      var n := HeadLength(a);
      HeadOfConcat(a, b);
      ConcatValid(a[n..], b);
      assert (a + b)[n..] == a[n..] + b;
    }
  }

  predicate IsScalar(cp: int)
  {
    0 <= cp < 0xD800 || 0xE000 <= cp <= 0x10FFFF
  }

  /** The UTF-8 bytes of a Unicode scalar value. */
  function Encode(cp: int): string
    requires IsScalar(cp)
  {
    if cp < 0x80 then [cp as char]
    else if cp < 0x800 then [(0xC0 + cp / 0x40) as char, (0x80 + cp % 0x40) as char]
    else if cp < 0x10000 then
      [(0xE0 + cp / 0x1000) as char, (0x80 + cp / 0x40 % 0x40) as char, (0x80 + cp % 0x40) as char]
    else
      [(0xF0 + cp / 0x40000) as char, (0x80 + cp / 0x1000 % 0x40) as char,
       (0x80 + cp / 0x40 % 0x40) as char, (0x80 + cp % 0x40) as char]
  }

  // ---- Which bytes are text ----------------------------------------------

  predicate Scalars(cps: seq<int>)
  {
    forall i :: 0 <= i < |cps| ==> IsScalar(cps[i])
  }

  /** The bytes of several scalar values. */
  function EncodeAll(cps: seq<int>): string
    requires Scalars(cps)
  {
    if cps == [] then "" else Encode(cps[0]) + EncodeAll(cps[1..])
  }

  /** The encoding of a scalar value is one well-formed sequence. */
  lemma EncodedHead(cp: int)
    requires IsScalar(cp)
    ensures HeadLength(Encode(cp)) == |Encode(cp)| > 0
  {
    if 0x800 <= cp < 0x10000 {
      EncodedThree(cp);
    } else if cp >= 0x10000 {
      EncodedFour(cp);
    }
  }

  lemma EncodedThree(cp: int)
    requires IsScalar(cp) && 0x800 <= cp < 0x10000
    ensures HeadLength(Encode(cp)) == |Encode(cp)| == 3
  {
    var e, a := Encode(cp), cp / 0x1000;
    assert e[0] as int == 0xE0 + a && 0 <= a < 0x10;
    assert a == 0 ==> e[1] as int >= 0xA0;
    assert a == 0xD ==> e[1] as int <= 0x9F;
    hide Encode, IsScalar;
  }

  lemma EncodedFour(cp: int)
    requires 0x10000 <= cp <= 0x10FFFF
    ensures HeadLength(Encode(cp)) == |Encode(cp)| == 4
  {
    var e, a := Encode(cp), cp / 0x40000;
    assert e[0] as int == 0xF0 + a && 0 <= a <= 4;
    assert a == 0 ==> e[1] as int >= 0x90;
    assert a == 4 ==> e[1] as int <= 0x8F;
    hide Encode;
  }

  /** The scalar value of one well-formed sequence. */
  function Decoded(s: string): int
  {
    match |s|
    case 0 => 0
    case 1 => s[0] as int
    case 2 => (s[0] as int - 0xC0) * 0x40 + (s[1] as int - 0x80)
    case 3 => ((s[0] as int - 0xE0) * 0x40 + (s[1] as int - 0x80)) * 0x40 + (s[2] as int - 0x80)
    case _ =>
      (((s[0] as int - 0xF0) * 0x40 + (s[1] as int - 0x80)) * 0x40 + (s[2] as int - 0x80)) * 0x40 + (s[3] as int - 0x80)
  }

  /** The scalar value that a well-formed sequence encodes. */
  lemma HeadDecodes(s: string) returns (cp: int)
    requires HeadLength(s) > 0
    ensures IsScalar(cp) && Encode(cp) == s[..HeadLength(s)]
  {
    var h := s[..HeadLength(s)];
    cp := Decoded(h);
    HeadBytes(s);
    hide HeadLength;
    if |h| == 2 {
      SixBits(h[0] as int - 0xC0, h[1]);
    } else if |h| == 3 {
      SixBits(h[0] as int - 0xE0, h[1]);
      SixBits((h[0] as int - 0xE0) * 0x40 + (h[1] as int - 0x80), h[2]);
    } else if |h| == 4 {
      var top := (h[0] as int - 0xF0) * 0x40 + (h[1] as int - 0x80);
      SixBits(h[0] as int - 0xF0, h[1]);
      SixBits(top, h[2]);
      SixBits(top * 0x40 + (h[2] as int - 0x80), h[3]);
    }
  }

  lemma SixBits(high: int, c: char)
    requires IsContinuation(c)
    ensures var n := high * 0x40 + (c as int - 0x80); n / 0x40 == high && n % 0x40 == c as int - 0x80
  {
  }

  /** The bytes of the sequence at the head. */
  lemma HeadBytes(s: string)
    requires HeadLength(s) > 0
    ensures var h := s[..HeadLength(s)];
      1 <= |h| <= 4 && (forall i :: 1 <= i < |h| ==> IsContinuation(h[i]))
      && (|h| == 1 ==> h[0] as int < 0x80)
      && (|h| == 2 ==> 0xC2 <= h[0] as int <= 0xDF)
      && (|h| == 3 ==> 0xE0 <= h[0] as int <= 0xEF && (h[0] as int == 0xE0 ==> h[1] as int >= 0xA0) && (h[0] as int == 0xED ==> h[1] as int <= 0x9F))
      && (|h| == 4 ==> 0xF0 <= h[0] as int <= 0xF4 && (h[0] as int == 0xF0 ==> h[1] as int >= 0x90) && (h[0] as int == 0xF4 ==> h[1] as int <= 0x8F))
  {
  }

  lemma EncodeDecodes(cp: int)
    requires IsScalar(cp)
    ensures Decoded(Encode(cp)) == cp
  {
    assert cp / 0x1000 == cp / 0x40 / 0x40 && cp / 0x40000 == cp / 0x1000 / 0x40;
  }

  lemma {:induction false} AllValid(cps: seq<int>)
    requires Scalars(cps)
    ensures Valid(EncodeAll(cps))
  {
    hide Encode, HeadLength;
    if cps != [] {
      EncodedHead(cps[0]);
      var e := Encode(cps[0]);
      AllValid(cps[1..]);
      assert e[|e|..] == "";
      ConcatValid(e, EncodeAll(cps[1..]));
    }
  }

  lemma {:induction false} ValidDecodes(s: string) returns (cps: seq<int>)
    requires Valid(s)
    ensures Scalars(cps) && EncodeAll(cps) == s
    decreases |s|
  {
    hide Encode, HeadLength, IsScalar;
    if s == [] {
      cps := [];
    } else {
      var n := HeadLength(s);
      var cp := HeadDecodes(s);
      var rest := ValidDecodes(s[n..]);
      cps := [cp] + rest;
      assert cps[1..] == rest && s == s[..n] + s[n..];
    }
  }

  /** The well-formed byte strings are exactly the encodings of scalar values, one each. */
  lemma ValidExactly(s: string)
    ensures Valid(s) <==> exists cps :: Scalars(cps) && EncodeAll(cps) == s
  {
    hide Valid, Scalars, EncodeAll;
    if Valid(s) {
      var cps := ValidDecodes(s);
    }
    if cps :| Scalars(cps) && EncodeAll(cps) == s {
      AllValid(cps);
    }
  }

  lemma {:induction false} EncodingUnique(a: seq<int>, b: seq<int>)
    requires Scalars(a) && Scalars(b) && EncodeAll(a) == EncodeAll(b)
    ensures a == b
  {
    hide Encode, HeadLength;
    if a == [] || b == [] {
      if a != [] { EncodedHead(a[0]); }
      if b != [] { EncodedHead(b[0]); }
    } else {
      var s := EncodeAll(a);
      var x, y := Encode(a[0]), Encode(b[0]);
      EncodedHead(a[0]);
      EncodedHead(b[0]);
      HeadOfConcat(x, EncodeAll(a[1..]));
      HeadOfConcat(y, EncodeAll(b[1..]));
      assert s[..|x|] == x && s[..|y|] == y;
      EncodeDecodes(a[0]);
      EncodeDecodes(b[0]);
      assert s[|x|..] == EncodeAll(a[1..]) && s[|y|..] == EncodeAll(b[1..]);
      EncodingUnique(a[1..], b[1..]);
      assert a == [a[0]] + a[1..] && b == [b[0]] + b[1..];
    }
  }
}
