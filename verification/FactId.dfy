/**
 Fact identifiers (crates/core/src/fact_id.rs): a 128-bit value made of a 48-bit
 millisecond time, a 16-bit sequence and 64 bits of entropy, shown as `kf_` and 26
 base-32 digits; and the generator that hands out strictly increasing pairs of time
 and sequence.
 */
module FactId {
  import opened Prelude

  const PREFIX := "kf_"
  const BODY_LEN := 26
  const ALPHABET := "0123456789ABCDEFGHJKMNPQRSTVWXYZ"

  const U128_LIMIT := 0x1_0000_0000_0000_0000_0000_0000_0000_0000
  const U48_LIMIT := 0x1_0000_0000_0000
  const U16_LIMIT := 0x1_0000

  type Id = v: nat | v < U128_LIMIT

  /** The symbol of a base-32 digit: the alphabet skips I, L, O and U. */
  function Symbol(d: nat): char
    requires d < 32
  {
    if d < 10 then '0' + d as char
    else if d < 18 then 'A' + (d - 10) as char
    else if d < 20 then 'J' + (d - 18) as char
    else if d < 22 then 'M' + (d - 20) as char
    else if d < 27 then 'P' + (d - 22) as char
    else 'V' + (d - 27) as char
  }

  /** The digit of a symbol, ignoring ASCII case. */
  function DecodeChar(c: char): (d: Option<nat>)
    ensures d.Some? ==> d.value < 32 && Symbol(d.value) == Upper(c)
  {
    var u := Upper(c);
    if '0' <= u <= '9' then Some((u - '0') as nat)
    else if 'A' <= u <= 'H' then Some((u - 'A') as nat + 10)
    else if 'J' <= u <= 'K' then Some((u - 'J') as nat + 18)
    else if 'M' <= u <= 'N' then Some((u - 'M') as nat + 20)
    else if 'P' <= u <= 'T' then Some((u - 'P') as nat + 22)
    else if 'V' <= u <= 'Z' then Some((u - 'V') as nat + 27)
    else None
  }

  function Upper(c: char): char
  {
    if 'a' <= c <= 'z' then c - 32 as char else c
  }

  lemma SymbolIsAlphabet(d: nat)
    requires d < 32
    ensures Symbol(d) == ALPHABET[d]
  {
  }

  /** Decoding finds exactly the position of the upper-cased symbol in the alphabet. */
  lemma DecodeIsPosition(c: char, k: nat)
    ensures DecodeChar(c) == Some(k) <==> k < 32 && ALPHABET[k] == Upper(c)
  {
    if k < 32 { SymbolIsAlphabet(k); }
  }

  // ---- Fixed-width numerals ---------------------------------------------

  /** The last `n` base-32 digits of `v`, most significant first. */
  function Base32(v: nat, n: nat): (s: string)
    ensures |s| == n
  {
    if n == 0 then [] else Base32(v / 32, n - 1) + [Symbol(v % 32)]
  }

  /** The last `n` bytes of `v`, most significant first. */
  function BigEndian(v: nat, n: nat): (s: string)
    ensures |s| == n
  {
    if n == 0 then [] else BigEndian(v / 256, n - 1) + [(v % 256) as char]
  }

  /** `v` fits in `n` base-32 digits. */
  predicate Fits32(v: nat, n: nat)
  {
    if n == 0 then v == 0 else Fits32(v / 32, n - 1)
  }

  predicate Fits256(v: nat, n: nat)
  {
    if n == 0 then v == 0 else Fits256(v / 256, n - 1)
  }

  lemma SymbolsIncrease(i: nat, j: nat)
    requires i < 32 && j < 32
    ensures Symbol(i) < Symbol(j) <==> i < j
    ensures Symbol(i) == Symbol(j) <==> i == j
  {
  }

  /** Numerals of one width order as their values do. */
  lemma {:induction false} Base32Order(v: nat, w: nat, n: nat)
    requires Fits32(v, n) && Fits32(w, n)
    ensures Below(Base32(v, n), Base32(w, n)) <==> v < w
    ensures Base32(v, n) == Base32(w, n) <==> v == w
  {
    if n > 0 {
      Base32Order(v / 32, w / 32, n - 1);
      BelowSnoc(Base32(v / 32, n - 1), Symbol(v % 32), Base32(w / 32, n - 1), Symbol(w % 32));
      SymbolsIncrease(v % 32, w % 32);
      SymbolsIncrease(w % 32, v % 32);
    }
  }

  lemma {:induction false} BigEndianOrder(v: nat, w: nat, n: nat)
    requires Fits256(v, n) && Fits256(w, n)
    ensures Below(BigEndian(v, n), BigEndian(w, n)) <==> v < w
    ensures BigEndian(v, n) == BigEndian(w, n) <==> v == w
  {
    if n > 0 {
      BigEndianOrder(v / 256, w / 256, n - 1);
      BelowSnoc(BigEndian(v / 256, n - 1), (v % 256) as char, BigEndian(w / 256, n - 1), (w % 256) as char);
    }
  }

  function Power(b: nat, n: nat): nat
  {
    if n == 0 then 1 else Power(b, n - 1) * b
  }

  lemma {:induction false} Fits32Power(v: nat, n: nat)
    ensures Fits32(v, n) <==> v < Power(32, n)
  {
    if n > 0 { Fits32Power(v / 32, n - 1); }
  }

  lemma {:induction false} Fits256Power(v: nat, n: nat)
    ensures Fits256(v, n) <==> v < Power(256, n)
  {
    if n > 0 { Fits256Power(v / 256, n - 1); }
  }

  lemma {:induction false} PowerAdd(b: nat, m: nat, n: nat)
    ensures Power(b, m + n) == Power(b, m) * Power(b, n)
  {
    if n > 0 { PowerAdd(b, m, n - 1); }
  }

  lemma Widths()
    ensures Power(32, 25) * 8 == U128_LIMIT && Power(32, 26) == 4 * U128_LIMIT && Power(256, 16) == U128_LIMIT
  {
    assert Power(32, 5) == 0x200_0000;
    PowerAdd(32, 5, 5);
    PowerAdd(32, 10, 10);
    PowerAdd(32, 20, 5);
    assert Power(256, 4) == 0x1_0000_0000;
    PowerAdd(256, 4, 4);
    PowerAdd(256, 8, 8);
    assert Power(32, 26) == Power(32, 25) * 32;
  }

  lemma IdFits(id: Id)
    ensures Fits32(id, 26) && Fits256(id, 16)
  {
    Widths();
    Fits32Power(id, 26);
    Fits256Power(id, 16);
  }

  // ---- Text --------------------------------------------------------------

  datatype IdError =
    | MissingPrefix
    | InvalidLength(found: nat)
    | InvalidCharacter(ch: char, index: nat)
    | Overflow

  function Text(id: Id): (t: string)
    ensures |t| == 29 && t[..3] == PREFIX
  {
    PREFIX + Base32(id, BODY_LEN)
  }

  function UpperAll(s: string): (t: string)
    ensures |t| == |s| && forall i :: 0 <= i < |s| ==> t[i] == Upper(s[i])
  {
    seq(|s|, i requires 0 <= i < |s| => Upper(s[i]))
  }

  /** What goes wrong first when the digits of `body` are read from index `i` on. */
  function FirstFault(body: string, i: nat): (e: Option<IdError>)
    decreases |body| - i
  {
    if i >= |body| then None
    else match DecodeChar(body[i])
      case None => Some(InvalidCharacter(body[i], |PREFIX| + i))
      case Some(d) => if i == 0 && d > 7 then Some(Overflow) else FirstFault(body, i + 1)
  }

  predicate AllDecode(body: string)
  {
    forall i :: 0 <= i < |body| ==> DecodeChar(body[i]).Some?
  }

  function Digits(body: string): (ds: seq<nat>)
    requires AllDecode(body)
    ensures |ds| == |body| && forall i :: 0 <= i < |body| ==> ds[i] == DecodeChar(body[i]).value < 32
  {
    seq(|body|, i requires 0 <= i < |body| => DecodeChar(body[i]).value)
  }

  /** The number with the given base-32 digits, most significant first. */
  function Value(ds: seq<nat>): nat
  {
    if ds == [] then 0 else Value(ds[..|ds| - 1]) * 32 + ds[|ds| - 1]
  }

  function ParseId(text: string): (r: Result<Id, IdError>)
  {
    if !(PREFIX <= text) then Err(MissingPrefix)
    else
      var body := text[|PREFIX|..];
      if |body| != BODY_LEN then Err(InvalidLength(|text|))
      else match FirstFault(body, 0)
        case Some(e) => Err(e)
        case None => NoFault(body, 0); ValueBelow(Digits(body)); Ok(Value(Digits(body)))
  }

  lemma {:induction false} NoFault(body: string, i: nat)
    requires FirstFault(body, i).None?
    ensures forall j :: i <= j < |body| ==> DecodeChar(body[j]).Some?
    ensures i == 0 ==> AllDecode(body)
    ensures i == 0 < |body| ==> DecodeChar(body[0]).value <= 7
    decreases |body| - i
  {
    if i < |body| { NoFault(body, i + 1); }
  }

  predicate Base32Digits(ds: seq<nat>)
  {
    forall i :: 0 <= i < |ds| ==> ds[i] < 32
  }

  lemma {:induction false} ValueBound(ds: seq<nat>)
    requires |ds| >= 1 && Base32Digits(ds)
    ensures Power(32, |ds| - 1) * ds[0] <= Value(ds) < Power(32, |ds| - 1) * (ds[0] + 1)
  {
    if |ds| == 1 {
      assert Value(ds[..0]) == 0;
    } else {
      var init := ds[..|ds| - 1];
      ValueBound(init);
      ScaleBound(Power(32, |init| - 1), ds[0], Value(init), ds[|ds| - 1]);
    }
  }

  lemma ScaleBound(p: nat, d: nat, v: nat, x: nat)
    requires p * d <= v < p * (d + 1) && x < 32
    ensures (p * 32) * d <= v * 32 + x < (p * 32) * (d + 1)
  {
    assert (p * 32) * (d + 1) == 32 * (p * (d + 1)) && (p * 32) * d == 32 * (p * d);
  }

  /** 26 digits fit in 128 bits exactly when the first is at most 7. */
  lemma ValueBelow(ds: seq<nat>)
    requires |ds| == BODY_LEN && Base32Digits(ds)
    ensures Value(ds) < U128_LIMIT <==> ds[0] <= 7
  {
    Widths();
    ValueBound(ds);
    assert Power(32, 25) == U128_LIMIT / 8;
  }

  lemma DigitsDecode(k: nat)
    requires k < 32
    ensures DecodeChar(Symbol(k)) == Some(k) && Upper(Symbol(k)) == Symbol(k)
  {
  }

  lemma DigitsSnoc(a: string, d: nat)
    requires AllDecode(a) && UpperAll(a) == a && d < 32
    ensures var b := a + [Symbol(d)];
      AllDecode(b) && UpperAll(b) == b && Value(Digits(b)) == Value(Digits(a)) * 32 + d
  {
    DigitsDecode(d);
    hide Symbol, DecodeChar, Upper;
    var b := a + [Symbol(d)];
    assert forall i :: 0 <= i < |a| ==> b[i] == a[i] == UpperAll(a)[i];
    assert Digits(b)[..|a|] == Digits(a);
  }

  lemma {:induction false} DigitsOfBase32(v: nat, n: nat)
    requires Fits32(v, n)
    ensures var b := Base32(v, n);
      UpperAll(b) == b && AllDecode(b) && Value(Digits(b)) == v
  {
    if n > 0 {
      DigitsOfBase32(v / 32, n - 1);
      DigitsDecode(v % 32);
      DigitsSnoc(Base32(v / 32, n - 1), v % 32);
    }
  }

  function Symbols(ds: seq<nat>): (s: string)
    requires Base32Digits(ds)
    ensures |s| == |ds|
  {
    seq(|ds|, i requires 0 <= i < |ds| => Symbol(ds[i]))
  }

  lemma {:induction false} Base32OfValue(ds: seq<nat>)
    requires Base32Digits(ds)
    ensures Base32(Value(ds), |ds|) == Symbols(ds)
  {
    if ds != [] {
      var n := |ds| - 1;
      var init := ds[..n];
      Base32OfValue(init);
      Base32Snoc(Value(init), ds[n], n);
      assert Symbols(ds) == Symbols(init) + [Symbol(ds[n])];
    }
  }

  lemma Base32OfDigits(body: string)
    requires AllDecode(body)
    ensures Base32(Value(Digits(body)), |body|) == UpperAll(body)
  {
    Base32OfValue(Digits(body));
    assert Symbols(Digits(body)) == UpperAll(body);
  }

  lemma Base32Snoc(v: nat, d: nat, n: nat)
    requires d < 32
    ensures Base32(v * 32 + d, n + 1) == Base32(v, n) + [Symbol(d)]
  {
    assert (v * 32 + d) / 32 == v && (v * 32 + d) % 32 == d;
  }

  lemma {:induction false} FaultsOnlyBadDigits(body: string, i: nat)
    requires forall j :: i <= j < |body| ==> DecodeChar(body[j]).Some?
    requires i == 0 < |body| ==> DecodeChar(body[0]).value <= 7
    ensures FirstFault(body, i).None?
    decreases |body| - i
  {
    if i < |body| { FaultsOnlyBadDigits(body, i + 1); }
  }

  /** Reading back the text of any 128-bit identifier gives that identifier. */
  lemma ParseUndoesText(id: Id)
    ensures ParseId(Text(id)) == Ok(id)
  {
    IdFits(id);
    var body := Text(id)[|PREFIX|..];
    assert body == Base32(id, 26);
    DigitsOfBase32(id, 26);
    ValueBelow(Digits(body));
    FaultsOnlyBadDigits(body, 0);
  }

  /**
   A text is an identifier exactly when it is `kf_` and 26 digits, in either case,
   whose value fits in 128 bits; its identifier's own text is the upper-case form.
   */
  lemma ParseAcceptsExactly(text: string)
    ensures ParseId(text).Ok? <==>
      PREFIX <= text && |text| == 29 && exists id: Id :: UpperAll(text[3..]) == Base32(id, 26)
    ensures ParseId(text).Ok? ==> Text(ParseId(text).value) == PREFIX + UpperAll(text[3..])
  {
    if PREFIX <= text && |text| == 29 {
      var body := text[3..];
      if ParseId(text).Ok? {
        NoFault(body, 0);
        Base32OfDigits(body);
      }
      if id: Id :| UpperAll(body) == Base32(id, 26) {
        BodyParses(id, body);
      }
    }
  }

  lemma BodyParses(id: Id, body: string)
    requires UpperAll(body) == Base32(id, 26)
    ensures FirstFault(body, 0).None?
  {
    IdFits(id);
    DigitsOfBase32(id, 26);
    var b := Base32(id, 26);
    forall j | 0 <= j < 26 ensures DecodeChar(body[j]) == DecodeChar(b[j]) && DecodeChar(body[j]).Some? {
      assert Upper(body[j]) == UpperAll(body)[j] == b[j] == Upper(b[j]);
    }
    ValueBelow(Digits(b));
    FaultsOnlyBadDigits(body, 0);
  }

  /** Identifiers order alike as numbers, as byte arrays and as text. */
  lemma TextOrderIsByteOrder(a: Id, b: Id)
    ensures Below(Text(a), Text(b)) <==> a < b
    ensures Below(BigEndian(a, 16), BigEndian(b, 16)) <==> a < b
    ensures Text(a) == Text(b) <==> a == b
  {
    IdFits(a);
    IdFits(b);
    Base32Order(a, b, 26);
    BigEndianOrder(a, b, 16);
    BelowCommonPrefix(PREFIX, Base32(a, 26), Base32(b, 26));
    assert Text(a)[3..] == Base32(a, 26) && Text(b)[3..] == Base32(b, 26);
  }

  lemma {:induction false} BelowCommonPrefix(p: string, a: string, b: string)
    ensures Below(p + a, p + b) <==> Below(a, b)
  {
    if p == [] {
      assert p + a == a && p + b == b;
    } else {
      assert (p + a)[1..] == p[1..] + a && (p + b)[1..] == p[1..] + b;
      BelowCommonPrefix(p[1..], a, b);
    }
  }

  // ---- Loops of the codec ------------------------------------------------

  method EncodeBody(id: Id) returns (body: array<char>)
    ensures fresh(body) && body[..] == Base32(id, BODY_LEN)
  {
    body := new char[BODY_LEN](_ => '0');
    var value: nat := id;
    var idx := BODY_LEN;
    while idx > 0
      invariant 0 <= idx <= BODY_LEN
      invariant Base32(id, BODY_LEN) == Base32(value, idx) + body[idx..]
    {
      idx := idx - 1;
      ghost var tail := body[idx + 1..];
      SymbolIsAlphabet(value % 32);
      body[idx] := ALPHABET[value % 32];
      assert body[idx..] == [Symbol(value % 32)] + tail;
      value := value / 32;
    }
  }

  /** The digit loop of `FactId::parse`: shifts left by five bits within 128 bits. */
  method DecodeBody(body: string) returns (r: Result<Id, IdError>)
    requires |body| == BODY_LEN
    ensures r == ParseId(PREFIX + body)
  {
    hide DecodeChar, Value, ParseId;
    ParseBody(body);
    var value: nat := 0;
    ghost var ds: seq<nat> := [];
    var idx := 0;
    while idx < |body|
      invariant 0 <= idx <= |body|
      invariant FirstFault(body, 0) == FirstFault(body, idx)
      invariant |ds| == idx && forall j :: 0 <= j < idx ==> DecodeChar(body[j]) == Some(ds[j])
      invariant Base32Digits(ds) && (idx > 0 ==> ds[0] <= 7)
      invariant value == Value(ds) && value < U128_LIMIT
    {
      var decoded := DecodeChar(body[idx]);
      if decoded.None? { return Err(InvalidCharacter(body[idx], |PREFIX| + idx)); }
      if idx == 0 && decoded.value > 7 { return Err(Overflow); }
      ShortValueBelow(ds, decoded.value);
      assert (value * 32) % U128_LIMIT == value * 32;
      ds := ds + [decoded.value];
      value := (value * 32) % U128_LIMIT + decoded.value;
      idx := idx + 1;
    }
    assert ds == Digits(body);
    r := Ok(value);
  }

  lemma ParseBody(body: string)
    requires |body| == BODY_LEN
    ensures Value([]) == 0
    ensures match FirstFault(body, 0)
      case Some(e) => ParseId(PREFIX + body) == Err(e)
      case None => AllDecode(body) && ParseId(PREFIX + body).Ok? && ParseId(PREFIX + body).value == Value(Digits(body))
  {
    assert (PREFIX + body)[3..] == body;
    if FirstFault(body, 0).None? { NoFault(body, 0); }
  }

  lemma ShortValueBelow(ds: seq<nat>, d: nat)
    requires |ds| < BODY_LEN && Base32Digits(ds) && d < 32 && (if ds == [] then d else ds[0]) <= 7
    ensures Value(ds + [d]) == Value(ds) * 32 + d < U128_LIMIT
  {
    ValueSnoc(ds, d);
    var ds' := ds + [d];
    hide Power, Value;
    Widths();
    ValueBound(ds');
    PowerMonotone(32, |ds|, 25);
    TimesEight(Power(32, |ds|), ds'[0], Power(32, 25));
  }

  lemma ValueSnoc(ds: seq<nat>, d: nat)
    ensures Value(ds + [d]) == Value(ds) * 32 + d
  {
    assert (ds + [d])[..|ds|] == ds;
  }

  lemma TimesEight(p: nat, d: nat, q: nat)
    requires p <= q && d <= 7
    ensures p * (d + 1) <= q * 8
  {
    assert p * (d + 1) <= p * 8;
  }

  lemma {:induction false} PowerMonotone(b: nat, m: nat, n: nat)
    requires b >= 1 && m <= n
    ensures 1 <= Power(b, m) <= Power(b, n)
    decreases n
  {
    if m < n {
      PowerMonotone(b, m, n - 1);
      assert Power(b, n - 1) * 1 <= Power(b, n - 1) * b;
    } else if n > 0 {
      PowerMonotone(b, m - 1, n - 1);
      assert 1 * 1 <= Power(b, n - 1) * b;
    }
  }

  // ---- Identifiers from parts --------------------------------------------

  /** The value built by `from_parts`; only the low 48 bits of the time survive. */
  function PartsValue(timestampMs: nat, sequence: nat, entropy: nat): Id
    requires sequence < U16_LIMIT && entropy < U64_LIMIT
  {
    ((timestampMs % U48_LIMIT) * U16_LIMIT + sequence) * U64_LIMIT + entropy
  }

  function TimestampMs(bytes: string): nat
    requires |bytes| == 16
  {
    bytes[0] as nat * 0x100_0000_0000 + bytes[1] as nat * 0x1_0000_0000 + bytes[2] as nat * 0x100_0000
    + bytes[3] as nat * 0x1_0000 + bytes[4] as nat * 0x100 + bytes[5] as nat
  }

  function Sequence(bytes: string): nat
    requires |bytes| == 16
  {
    bytes[6] as nat * 0x100 + bytes[7] as nat
  }

  lemma {:induction false} BigEndianConcat(hi: nat, lo: nat, m: nat, n: nat)
    requires lo < Power(256, n)
    ensures BigEndian(hi * Power(256, n) + lo, m + n) == BigEndian(hi, m) + BigEndian(lo, n)
  {
    if n > 0 {
      var p := Power(256, n - 1);
      var v := hi * Power(256, n) + lo;
      assert v == 256 * (hi * p) + lo;
      assert v / 256 == hi * p + lo / 256 && v % 256 == lo % 256;
      BigEndianConcat(hi, lo / 256, m, n - 1);
    } else {
      assert hi * 1 + lo == hi;
    }
  }

  lemma TimeBytes(t: nat)
    requires t < U48_LIMIT
    ensures BigEndian(t, 6) ==
      [(t / 0x100_0000_0000 % 256) as char, (t / 0x1_0000_0000 % 256) as char, (t / 0x100_0000 % 256) as char,
       (t / 0x1_0000 % 256) as char, (t / 0x100 % 256) as char, (t % 256) as char]
  {
    LastByte(t / 0x100_0000_0000, 0, t / 0x100_0000_0000 / 256);
    LastByte(t / 0x1_0000_0000, 1, t / 0x100_0000_0000);
    LastByte(t / 0x100_0000, 2, t / 0x1_0000_0000);
    LastByte(t / 0x1_0000, 3, t / 0x100_0000);
    LastByte(t / 0x100, 4, t / 0x1_0000);
    LastByte(t, 5, t / 0x100);
    hide BigEndian;
    assert BigEndian(t / 0x100_0000_0000 / 256, 0) == [];
  }

  lemma LastByte(v: nat, n: nat, q: nat)
    requires q == v / 256
    ensures BigEndian(v, n + 1) == BigEndian(q, n) + [(v % 256) as char]
  {
  }

  lemma WordPowers()
    ensures Power(256, 2) == U16_LIMIT && Power(256, 8) == U64_LIMIT
  {
    assert Power(256, 4) == 0x1_0000_0000;
    PowerAdd(256, 4, 4);
  }

  lemma SequenceBytes(sequence: nat)
    requires sequence < U16_LIMIT
    ensures BigEndian(sequence, 2) == [(sequence / 256) as char, (sequence % 256) as char]
  {
    assert BigEndian(sequence / 256, 1) == [(sequence / 256) as char];
  }

  lemma PartsBytes(t: nat, sequence: nat, entropy: nat)
    requires t < U48_LIMIT && sequence < U16_LIMIT && entropy < U64_LIMIT
    ensures BigEndian((t * U16_LIMIT + sequence) * U64_LIMIT + entropy, 16)
      == BigEndian(t, 6) + BigEndian(sequence, 2) + BigEndian(entropy, 8)
  {
    WordPowers();
    var hi := t * U16_LIMIT + sequence;
    BigEndianConcat(hi, entropy, 8, 8);
    BigEndianConcat(t, sequence, 6, 2);
    assert BigEndian(hi, 8) == BigEndian(t, 6) + BigEndian(sequence, 2);
  }

  /** The eight bytes that `from_parts` computes by shifting and masking. */
  function HeadDigits(timestampMs: nat, sequence: nat): (x: seq<nat>)
    ensures |x| == 8 && forall i :: 0 <= i < 8 ==> x[i] < 256
  {
    [timestampMs / 0x100_0000_0000 % 256, timestampMs / 0x1_0000_0000 % 256, timestampMs / 0x100_0000 % 256,
     timestampMs / 0x1_0000 % 256, timestampMs / 0x100 % 256, timestampMs % 256,
     sequence / 0x100 % 256, sequence % 256]
  }

  function Chars(x: seq<nat>): (s: string)
    requires forall i :: 0 <= i < |x| ==> x[i] < 256
    ensures |s| == |x|
  {
    seq(|x|, i requires 0 <= i < |x| => x[i] as char)
  }

  /** Where each byte of an identifier comes from. */
  lemma PartsBytesAt(timestampMs: nat, sequence: nat, entropy: nat)
    requires sequence < U16_LIMIT && entropy < U64_LIMIT
    ensures BigEndian(PartsValue(timestampMs, sequence, entropy), 16)
      == Chars(HeadDigits(timestampMs, sequence)) + BigEndian(entropy, 8)
  {
    var t := timestampMs % U48_LIMIT;
    PartsBytes(t, sequence, entropy);
    TimeBytes(t);
    SequenceBytes(sequence);
    LowDigits(timestampMs);
    assert Chars(HeadDigits(timestampMs, sequence)) == BigEndian(t, 6) + BigEndian(sequence, 2);
  }

  /** The number whose big-endian bytes are `s`. */
  function BytesValue(s: string): nat
  {
    if s == [] then 0 else BytesValue(s[..|s| - 1]) * 256 + s[|s| - 1] as nat
  }

  lemma {:induction false} BytesValueInverts(v: nat, n: nat)
    requires Fits256(v, n)
    ensures BytesValue(BigEndian(v, n)) == v
  {
    if n > 0 {
      BytesValueInverts(v / 256, n - 1);
      assert BigEndian(v, n)[..n - 1] == BigEndian(v / 256, n - 1);
    }
  }

  lemma HeadValues(bytes: string)
    requires |bytes| == 16
    ensures TimestampMs(bytes) == BytesValue(bytes[..6]) && Sequence(bytes) == BytesValue(bytes[6..8])
  {
    var t, q := bytes[..6], bytes[6..8];
    assert t[..5][..4] == t[..4] && t[..4][..3] == t[..3] && t[..3][..2] == t[..2] && t[..2][..1] == t[..1];
    assert BytesValue(t[..1]) == t[0] as nat;
    assert BytesValue(t[..2]) == BytesValue(t[..1]) * 256 + t[1] as nat;
    assert BytesValue(t[..3]) == BytesValue(t[..2]) * 256 + t[2] as nat;
    assert BytesValue(t[..4]) == BytesValue(t[..3]) * 256 + t[3] as nat;
    assert BytesValue(t[..5]) == BytesValue(t[..4]) * 256 + t[4] as nat;
    assert BytesValue(q[..1]) == q[0] as nat;
  }

  lemma LowDigits(v: nat)
    ensures var t := v % U48_LIMIT;
      t / 0x100_0000_0000 % 256 == v / 0x100_0000_0000 % 256 && t / 0x1_0000_0000 % 256 == v / 0x1_0000_0000 % 256
      && t / 0x100_0000 % 256 == v / 0x100_0000 % 256 && t / 0x1_0000 % 256 == v / 0x1_0000 % 256
      && t / 0x100 % 256 == v / 0x100 % 256 && t % 256 == v % 256
  {
    var q, t := v / U48_LIMIT, v % U48_LIMIT;
    assert v == q * U48_LIMIT + t;
    assert v / 0x100_0000_0000 == q * 0x100 + t / 0x100_0000_0000;
    assert v / 0x1_0000_0000 == q * 0x1_0000 + t / 0x1_0000_0000;
    assert v / 0x100_0000 == q * 0x100_0000 + t / 0x100_0000;
    assert v / 0x1_0000 == q * 0x1_0000_0000 + t / 0x1_0000;
    assert v / 0x100 == q * 0x100_0000_0000 + t / 0x100;
    LowByte(q, t / 0x100_0000_0000);
    LowByte(q * 0x100, t / 0x1_0000_0000);
    LowByte(q * 0x1_0000, t / 0x100_0000);
    LowByte(q * 0x100_0000, t / 0x1_0000);
    LowByte(q * 0x1_0000_0000, t / 0x100);
    LowByte(q * 0x100_0000_0000, t);
  }

  lemma LowByte(q: nat, t: nat)
    ensures (q * 256 + t) % 256 == t % 256
  {
  }

  /** The byte-filling body of `from_parts`. */
  method FromParts(timestampMs: nat, sequence: nat, entropy: nat) returns (bytes: array<char>)
    requires timestampMs < U64_LIMIT && sequence < U16_LIMIT && entropy < U64_LIMIT
    ensures fresh(bytes) && bytes[..] == BigEndian(PartsValue(timestampMs, sequence, entropy), 16)
  {
    bytes := new char[16](_ => 0 as char);
    var head := HeadDigits(timestampMs, sequence);
    var tail := BigEndian(entropy, 8);
    forall i | 0 <= i < 8 { bytes[i] := head[i] as char; }
    forall i | 8 <= i < 16 { bytes[i] := tail[i - 8]; }
    PartsBytesAt(timestampMs, sequence, entropy);
    assert bytes[..8] == Chars(head) && bytes[8..] == tail;
    assert bytes[..] == bytes[..8] + bytes[8..];
  }

  /** Time and sequence are recovered from an identifier minted before the year 10889. */
  lemma PartsRecovered(timestampMs: nat, sequence: nat, entropy: nat)
    requires timestampMs < U48_LIMIT && sequence < U16_LIMIT && entropy < U64_LIMIT
    ensures var bytes := BigEndian(PartsValue(timestampMs, sequence, entropy), 16);
      TimestampMs(bytes) == timestampMs && Sequence(bytes) == sequence
  {
    hide PartsValue;
    PartsBytes(timestampMs, sequence, entropy);
    assert (timestampMs * U16_LIMIT + sequence) * U64_LIMIT + entropy == PartsValue(timestampMs, sequence, entropy) by {
      PartsFormula(timestampMs, sequence, entropy);
    }
    var bytes := BigEndian(PartsValue(timestampMs, sequence, entropy), 16);
    HeadValues(bytes);
    assert bytes[..6] == BigEndian(timestampMs, 6) && bytes[6..8] == BigEndian(sequence, 2);
    TimeFits(timestampMs);
    SequenceFits(sequence);
    BytesValueInverts(timestampMs, 6);
    BytesValueInverts(sequence, 2);
  }

  lemma PartsFormula(timestampMs: nat, sequence: nat, entropy: nat)
    requires timestampMs < U48_LIMIT && sequence < U16_LIMIT && entropy < U64_LIMIT
    ensures PartsValue(timestampMs, sequence, entropy) == (timestampMs * U16_LIMIT + sequence) * U64_LIMIT + entropy
  {
  }

  lemma TimeFits(t: nat)
    requires t < U48_LIMIT
    ensures Fits256(t, 6)
  {
    assert Power(256, 3) == 0x100_0000;
    PowerAdd(256, 3, 3);
    Fits256Power(t, 6);
  }

  lemma SequenceFits(q: nat)
    requires q < U16_LIMIT
    ensures Fits256(q, 2)
  {
    assert Power(256, 2) == U16_LIMIT;
    Fits256Power(q, 2);
  }

  // ---- The generator -----------------------------------------------------

  datatype Stamp = Stamp(ms: nat, sequence: nat)

  predicate Precedes(a: Stamp, b: Stamp)
  {
    a.ms < b.ms || (a.ms == b.ms && a.sequence < b.sequence)
  }

  /** The pair handed out for a clock reading; `later` is what a wait would return. */
  function NextStamp(last: Stamp, now: nat, later: nat): Stamp
  {
    if now > last.ms then Stamp(now, 0)
    else if last.sequence < U16_LIMIT - 1 then Stamp(last.ms, last.sequence + 1)
    else Stamp(later, 0)
  }

  class GeneratorState {
    var lastMs: nat
    var sequence: nat

    constructor ()
      ensures Last() == Stamp(0, 0)
    {
      lastMs, sequence := 0, 0;
    }

    function Last(): Stamp
      reads this
    {
      Stamp(lastMs, sequence)
    }

    /** `later` stands for the reading on which the wait loop stops: one beyond `lastMs`. */
    method NextParts(now: nat, later: nat) returns (ms: nat, sequenceOut: nat)
      requires sequence < U16_LIMIT && later > lastMs
      modifies this
      ensures Last() == Stamp(ms, sequenceOut) == NextStamp(old(Last()), now, later)
      ensures Precedes(old(Last()), Stamp(ms, sequenceOut)) && sequenceOut < U16_LIMIT
    {
      var nowMs := now;
      while true
        invariant unchanged(this)
        invariant nowMs == now || (nowMs == later && now <= lastMs && sequence == U16_LIMIT - 1)
        decreases if nowMs > lastMs then 0 else 1
      {
        if nowMs > lastMs {
          lastMs := nowMs;
          sequence := 0;
          return nowMs, 0;
        } else if nowMs == lastMs {
          if sequence < U16_LIMIT - 1 {
            sequence := sequence + 1;
            return nowMs, sequence;
          }
          nowMs := later;
        } else {
          if sequence < U16_LIMIT - 1 {
            sequence := sequence + 1;
            return lastMs, sequence;
          }
          nowMs := later;
        }
      }
    }
  }

  /** A clock reading and, should the call have to wait, the reading that ends the wait. */
  datatype Reading = Reading(now: nat, later: nat)

  /** The stamps of successive calls under an arbitrary clock. */
  function Minted(last: Stamp, clock: seq<Reading>): (stamps: seq<Stamp>)
    ensures |stamps| == |clock|
    decreases |clock|
  {
    if clock == [] then []
    else
      var next := NextStamp(last, clock[0].now, clock[0].later);
      [next] + Minted(next, clock[1..])
  }

  /** Every wait ends on a reading beyond the last stamp. */
  predicate WaitsEnd(last: Stamp, clock: seq<Reading>)
    decreases |clock|
  {
    clock == [] ||
    (last.ms < clock[0].later && WaitsEnd(NextStamp(last, clock[0].now, clock[0].later), clock[1..]))
  }

  /** Whatever the clock does, stamps strictly increase over any run of the generator. */
  lemma {:induction false} StampsIncrease(last: Stamp, clock: seq<Reading>, j: nat)
    requires last.sequence < U16_LIMIT && WaitsEnd(last, clock) && j < |clock|
    ensures var stamps := Minted(last, clock);
      Precedes(last, stamps[j]) && stamps[j].sequence < U16_LIMIT
      && forall i :: 0 <= i < j ==> Precedes(stamps[i], stamps[j])
    decreases |clock|
  {
    var next := NextStamp(last, clock[0].now, clock[0].later);
    if j > 0 {
      StampsIncrease(next, clock[1..], j - 1);
      var stamps := Minted(last, clock);
      forall i | 0 <= i < j ensures Precedes(stamps[i], stamps[j]) {
        if i > 0 { assert stamps[i] == Minted(next, clock[1..])[i - 1]; }
      }
    }
  }

  /**
   What the stamps tell: each carries the clock's reading when that lies beyond the stamp before,
   else the time of the stamp before and the next sequence number, or when there is none the
   reading that ends the wait.  None is behind the clock.
   */
  lemma {:induction false} StampsTellTime(last: Stamp, clock: seq<Reading>, j: nat)
    requires last.sequence < U16_LIMIT && WaitsEnd(last, clock) && j < |clock|
    ensures var stamps := Minted(last, clock); var before := if j == 0 then last else stamps[j - 1];
      stamps[j].ms >= clock[j].now
      && (clock[j].now > before.ms ==> stamps[j] == Stamp(clock[j].now, 0))
      && (clock[j].now <= before.ms && before.sequence < 65535 ==> stamps[j] == Stamp(before.ms, before.sequence + 1))
      && (clock[j].now <= before.ms && before.sequence == 65535 ==> stamps[j] == Stamp(clock[j].later, 0))
    decreases |clock|
  {
    var next := NextStamp(last, clock[0].now, clock[0].later);
    if j > 0 { StampsTellTime(next, clock[1..], j - 1); }
  }

  lemma LaterPartsGreater(a: Stamp, b: Stamp, ea: nat, eb: nat)
    requires Precedes(a, b) && b.ms < U48_LIMIT
    requires a.sequence < U16_LIMIT && b.sequence < U16_LIMIT && ea < U64_LIMIT && eb < U64_LIMIT
    ensures PartsValue(a.ms, a.sequence, ea) < PartsValue(b.ms, b.sequence, eb)
  {
  }

  /**
   Identifiers minted by one process are distinct and increase as numbers, as bytes and
   as text, whatever the entropy and however the clock jumps, while the time fits 48 bits.
   */
  lemma MintedIdsIncrease(last: Stamp, clock: seq<Reading>, entropy: seq<nat>, i: nat, j: nat)
    requires last.sequence < U16_LIMIT && WaitsEnd(last, clock)
    requires |entropy| == |clock| && forall k :: 0 <= k < |entropy| ==> entropy[k] < U64_LIMIT
    requires i < j < |clock| && Minted(last, clock)[j].ms < U48_LIMIT
    ensures var stamps := Minted(last, clock);
      stamps[i].sequence < U16_LIMIT && stamps[j].sequence < U16_LIMIT &&
      var a := PartsValue(stamps[i].ms, stamps[i].sequence, entropy[i]);
      var b := PartsValue(stamps[j].ms, stamps[j].sequence, entropy[j]);
      a < b && Below(Text(a), Text(b)) && Below(BigEndian(a, 16), BigEndian(b, 16))
  {
    StampsIncrease(last, clock, i);
    StampsIncrease(last, clock, j);
    var stamps := Minted(last, clock);
    LaterPartsGreater(stamps[i], stamps[j], entropy[i], entropy[j]);
    TextOrderIsByteOrder(
      PartsValue(stamps[i].ms, stamps[i].sequence, entropy[i]),
      PartsValue(stamps[j].ms, stamps[j].sequence, entropy[j]));
  }
}
