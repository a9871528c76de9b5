/** The TOTP helper's base32 decoder, which lets a 32-bit accumulator overflow, against the decoding of
    section 6 of RFC 4648. */
module Base32 {
  import opened Prelude

  const ALPHABET := "ABCDEFGHIJKLMNOPQRSTUVWXYZ234567"

  // ---- Bits ----

  function Pow2(n: nat): (p: nat)
    ensures p > 0
  {
    if n == 0 then 1 else 2 * Pow2(n - 1)
  }

  /** The n lowest bits of v in two's complement, most significant first. */
  function LowBits(v: int, n: nat): (bits: seq<bool>)
    ensures |bits| == n
    decreases n
  {
    if n == 0 then [] else LowBits(v / 2, n - 1) + [v % 2 == 1]
  }

  /** The number a bit string denotes. */
  function ValueOf(bits: seq<bool>): (v: nat)
    ensures v < Pow2(|bits|)
  {
    if bits == [] then 0
    else 2 * ValueOf(bits[..|bits| - 1]) + if bits[|bits| - 1] then 1 else 0
  }

  lemma {:induction false} LowBitsOfValue(bits: seq<bool>)
    ensures LowBits(ValueOf(bits), |bits|) == bits
  {
    if bits != [] {
      LowBitsOfValue(bits[..|bits| - 1]);
      assert bits == bits[..|bits| - 1] + [bits[|bits| - 1]];
    }
  }

  lemma {:induction false} ValueOfLowBits(v: nat, n: nat)
    requires v < Pow2(n)
    ensures ValueOf(LowBits(v, n)) == v
  {
    if n > 0 {
      ValueOfLowBits(v / 2, n - 1);
      assert LowBits(v, n)[..n - 1] == LowBits(v / 2, n - 1);
    }
  }

  /** Bits above the n lowest do not matter. */
  lemma {:induction false} HighBitsIgnored(v: int, k: int, m: nat, n: nat)
    requires n <= m
    ensures LowBits(v + k * Pow2(m), n) == LowBits(v, n)
    decreases n
  {
    if n > 0 {
      var high := k * Pow2(m - 1);
      assert k * Pow2(m) == 2 * high;
      assert (v + 2 * high) / 2 == v / 2 + high && (v + 2 * high) % 2 == v % 2;
      HighBitsIgnored(v / 2, k, m - 1, n - 1);
    }
  }

  /** v without its k lowest bits. */
  function ShiftRight(v: int, k: nat): int
    decreases k
  {
    if k == 0 then v else ShiftRight(v / 2, k - 1)
  }

  lemma {:induction false} BitsSplit(v: int, n: nat, k: nat)
    ensures LowBits(v, n + k) == LowBits(ShiftRight(v, k), n) + LowBits(v, k)
    decreases k
  {
    if k > 0 { BitsSplit(v / 2, n, k - 1); }
  }

  lemma ShiftRightIsDivision(v: int)
    ensures ShiftRight(v, 0) == v && ShiftRight(v, 1) == v / 2 && ShiftRight(v, 2) == v / 4
    ensures ShiftRight(v, 3) == v / 8 && ShiftRight(v, 4) == v / 16 && ShiftRight(v, 5) == v / 32
  {
    assert ShiftRight(v, 1) == ShiftRight(v / 2, 0) && ShiftRight(v, 2) == ShiftRight(v / 2, 1);
    assert ShiftRight(v, 3) == ShiftRight(v / 2, 2) == ShiftRight(v / 4, 1) == ShiftRight(v / 8, 0);
    assert ShiftRight(v, 4) == ShiftRight(v / 2, 3) == ShiftRight(v / 4, 2) == ShiftRight(v / 8, 1) ==
      ShiftRight(v / 16, 0);
    assert ShiftRight(v, 5) == ShiftRight(v / 2, 4) == ShiftRight(v / 4, 3) == ShiftRight(v / 8, 2) ==
      ShiftRight(v / 16, 1) == ShiftRight(v / 32, 0);
  }

  /** Appending five bits below v. */
  lemma ShiftedBits(v: int, low: nat, n: nat)
    requires low < 32
    ensures LowBits(v * 32 + low, n + 5) == LowBits(v, n) + LowBits(low, 5)
  {
    assert Pow2(5) == 32;
    hide LowBits, ShiftRight, Pow2;
    BitsSplit(v * 32 + low, n, 5);
    ShiftRightIsDivision(v * 32 + low);
    HighBitsIgnored(low, v, 5, 5);
  }

  // ---- What section 6 of RFC 4648 says ----

  /** The concatenated 5-bit groups of a string of digits. */
  function GroupBits(digits: seq<nat>): (bits: seq<bool>)
    ensures |bits| == 5 * |digits|
  {
    if digits == [] then [] else GroupBits(digits[..|digits| - 1]) + LowBits(digits[|digits| - 1], 5)
  }

  function OctetBits(data: Bytes): (bits: seq<bool>)
    ensures |bits| == 8 * |data|
  {
    if data == [] then [] else OctetBits(data[..|data| - 1]) + LowBits(data[|data| - 1] as int, 8)
  }

  /** The octets a bit string holds; what is left over at its end is dropped. */
  function Octets(bits: seq<bool>): (data: Bytes)
    ensures |data| == |bits| / 8
  {
    if |bits| < 8 then [] else
      assert Pow2(8) == 256;
      [ValueOf(bits[..8]) as byte] + Octets(bits[8..])
  }

  /** The 5-bit groups of a bit string, the last one filled up with zeros. */
  function Groups(bits: seq<bool>): (digits: seq<nat>)
    ensures |digits| == (|bits| + 4) / 5
    ensures forall i | 0 <= i < |digits| :: digits[i] < 32
    decreases |bits|
  {
    if bits == [] then []
    else
      assert Pow2(5) == 32;
      if |bits| < 5 then [ValueOf(bits + [false, false, false, false][..5 - |bits|])]
      else [ValueOf(bits[..5])] + Groups(bits[5..])
  }

  function Encode(data: Bytes): string {
    var digits := Groups(OctetBits(data));
    seq(|digits|, i requires 0 <= i < |digits| => ALPHABET[digits[i]])
  }

  lemma {:induction false} OctetBitsCons(first: byte, data: Bytes)
    ensures OctetBits([first] + data) == LowBits(first as int, 8) + OctetBits(data)
  {
    var whole := [first] + data;
    if data == [] {
      assert whole[..0] == [];
    } else {
      var n := |data| - 1;
      assert whole[..|whole| - 1] == [first] + data[..n];
      OctetBitsCons(first, data[..n]);
    }
  }

  lemma {:induction false} GroupBitsCons(first: nat, digits: seq<nat>)
    ensures GroupBits([first] + digits) == LowBits(first, 5) + GroupBits(digits)
  {
    var whole := [first] + digits;
    hide LowBits;
    if digits == [] {
      assert whole[..0] == [];
    } else {
      var n := |digits| - 1;
      assert whole[..|whole| - 1] == [first] + digits[..n];
      GroupBitsCons(first, digits[..n]);
    }
  }

  lemma OctetBitsSnoc(data: Bytes, last: byte)
    ensures OctetBits(data + [last]) == OctetBits(data) + LowBits(last as int, 8)
  {
    assert (data + [last])[..|data|] == data;
  }

  lemma GroupBitsSnoc(digits: seq<nat>, last: nat)
    ensures GroupBits(digits + [last]) == GroupBits(digits) + LowBits(last, 5)
  {
    assert (digits + [last])[..|digits|] == digits;
  }

  lemma OctetsCons(first: seq<bool>, bits: seq<bool>)
    requires |first| == 8
    ensures ValueOf(first) < 256 && Octets(first + bits) == [ValueOf(first) as byte] + Octets(bits)
  {
    assert Pow2(8) == 256;
    assert (first + bits)[..8] == first && (first + bits)[8..] == bits;
  }

  lemma ByteOfBits(b: byte)
    ensures ValueOf(LowBits(b as int, 8)) == b as int
  {
    assert Pow2(8) == 256;
    ValueOfLowBits(b as int, 8);
  }

  lemma FirstOctet(data: Bytes, rest: seq<bool>)
    requires data != []
    ensures Octets(OctetBits(data) + rest) == [data[0]] + Octets(OctetBits(data[1..]) + rest)
  {
    hide LowBits, ValueOf, Octets, OctetBits;
    var first, bits := LowBits(data[0] as int, 8), OctetBits(data[1..]);
    assert data == [data[0]] + data[1..];
    OctetBitsCons(data[0], data[1..]);
    assert (first + bits) + rest == first + (bits + rest);
    ByteOfBits(data[0]);
    OctetsCons(first, bits + rest);
  }

  /** Octets undoes OctetBits, whatever fewer than eight bits follow. */
  lemma {:induction false} OctetsOfBits(data: Bytes, rest: seq<bool>)
    requires |rest| < 8
    ensures Octets(OctetBits(data) + rest) == data
  {
    if data == [] {
      assert OctetBits(data) + rest == rest;
    } else {
      hide Octets, OctetBits;
      FirstOctet(data, rest);
      OctetsOfBits(data[1..], rest);
    }
  }

  function Zeros(n: nat): seq<bool> {
    seq(n, _ => false)
  }

  /** The groups of a bit string hold its bits, and fewer than five zeros. */
  lemma {:induction false} GroupsHoldBits(bits: seq<bool>)
    ensures GroupBits(Groups(bits)) == bits + Zeros(5 * |Groups(bits)| - |bits|)
    decreases |bits|
  {
    hide Pow2, LowBits, ValueOf;
    if bits == [] {
    } else if |bits| < 5 {
      var filled := bits + [false, false, false, false][..5 - |bits|];
      LowBitsOfValue(filled);
      assert Groups(bits) == [ValueOf(filled)] && Groups(bits)[..0] == [];
      assert GroupBits(Groups(bits)) == filled;
      assert filled == bits + Zeros(5 - |bits|);
    } else {
      LowBitsOfValue(bits[..5]);
      GroupsHoldBits(bits[5..]);
      GroupBitsCons(ValueOf(bits[..5]), Groups(bits[5..]));
      assert bits == bits[..5] + bits[5..];
    }
  }

  // ---- Text ----

  function IndexOf(s: string, c: char): (i: int)
    ensures -1 <= i < |s|
    ensures i >= 0 ==> s[i] == c
    ensures i == -1 <==> c !in s
  {
    if s == "" then -1
    else
      var i := IndexOf(s[..|s| - 1], c);
      if i >= 0 then i else if s[|s| - 1] == c then |s| - 1 else -1
  }

  /** The value of a base32 digit, or -1. */
  function DigitValue(c: char): (i: int)
    ensures -1 <= i < 32
  {
    IndexOf(ALPHABET, c)
  }

  /** The characters a JavaScript regular expression calls white space. */
  predicate IsSpace(c: char) {
    || c in " \t\n\r" || c == '\U{0B}' || c == '\U{0C}' || c == '\U{A0}' || c == '\U{1680}'
    || '\U{2000}' <= c <= '\U{200A}'
    || c == '\U{2028}' || c == '\U{2029}' || c == '\U{202F}' || c == '\U{205F}' || c == '\U{3000}' || c == '\U{FEFF}'
  }

  function WithoutSpaces(s: string): string {
    if s == "" then "" else (if IsSpace(s[0]) then "" else [s[0]]) + WithoutSpaces(s[1..])
  }

  /** `upper` is what upper-casing makes of one character. */
  function UpperCase(upper: char -> string, s: string): string {
    if s == "" then "" else upper(s[0]) + UpperCase(upper, s[1..])
  }

  function Unpadded(s: string): string {
    if s != "" && s[|s| - 1] == '=' then Unpadded(s[..|s| - 1]) else s
  }

  /** The values of base32 digits, or the first character that is none. */
  function DigitsOf(s: string): (r: Result<seq<nat>, char>)
    ensures r.Ok? ==> |r.value| == |s| && forall i | 0 <= i < |s| :: r.value[i] < 32
  {
    if s == "" then Ok([])
    else
      var n := |s| - 1;
      match DigitsOf(s[..n])
      case Err(c) => Err(c)
      case Ok(digits) => if DigitValue(s[n]) == -1 then Err(s[n]) else Ok(digits + [DigitValue(s[n])])
  }

  /** The decoding of section 6 of RFC 4648, after white space, letter case and padding are dropped. */
  function Decoded(upper: char -> string, input: string): Result<Bytes, char> {
    match DigitsOf(Unpadded(UpperCase(upper, WithoutSpaces(input))))
    case Err(c) => Err(c)
    case Ok(digits) => Ok(Octets(GroupBits(digits)))
  }

  lemma NothingYet()
    ensures DigitsOf("") == Ok([]) && OctetBits([]) + LowBits(0, 0) == GroupBits([])
  {
  }

  lemma NextDigit(s: string, i: nat)
    requires i < |s| && DigitsOf(s[..i]).Ok?
    ensures DigitsOf(s[..i + 1]) == if DigitValue(s[i]) == -1 then Err(s[i])
                                    else Ok(DigitsOf(s[..i]).value + [DigitValue(s[i])])
  {
    hide DigitValue;
    assert s[..i + 1][..i] == s[..i];
  }

  lemma PowersOfTwo()
    ensures Pow2(5) == 32 && Pow2(8) == 256 && Pow2(32) == 0x1_0000_0000
  {
    assert Pow2(8) == 256;
    assert Pow2(16) == 0x1_0000;
    assert Pow2(24) == 0x100_0000;
  }

  // ---- 32-bit arithmetic ----

  function ToUint32(x: int): (u: nat)
    ensures u < 0x1_0000_0000
  {
    x % 0x1_0000_0000
  }

  function ToInt32(x: int): (v: int)
    ensures -0x8000_0000 <= v < 0x8000_0000
  {
    if ToUint32(x) < 0x8000_0000 then ToUint32(x) else ToUint32(x) - 0x1_0000_0000
  }

  /** (value << 5) | low: the shift leaves zeros for low's five bits. */
  function Append5(value: int, low: nat): int
    requires low < 32
  {
    ToInt32(value * 32 + low)
  }

  /** (value >>> k) & 0xff. */
  function OctetAt(value: int, k: nat): (b: byte)
    requires k <= 4
  {
    (ShiftRight(ToUint32(value), k) % 256) as byte
  }

  lemma WrappedBits(x: int, n: nat)
    requires n <= 32
    ensures LowBits(ToUint32(x), n) == LowBits(x, n) && LowBits(ToInt32(x), n) == LowBits(x, n)
  {
    PowersOfTwo();
    hide LowBits, Pow2;
    var k := x / 0x1_0000_0000;
    HighBitsIgnored(ToUint32(x), k, 32, n);
    assert ToUint32(x) + k * Pow2(32) == x;
    HighBitsIgnored(ToInt32(x), 1, 32, n);
  }

  /** Overflow never reaches the bits still to be written. */
  lemma AppendedBits(value: int, low: nat, n: nat)
    requires low < 32 && n <= 27
    ensures LowBits(Append5(value, low), n + 5) == LowBits(value, n) + LowBits(low, 5)
  {
    hide LowBits;
    WrappedBits(value * 32 + low, n + 5);
    ShiftedBits(value, low, n);
  }

  lemma ExtractedBits(value: int, k: nat)
    requires k <= 4
    ensures LowBits(value, 8 + k) == LowBits(OctetAt(value, k) as int, 8) + LowBits(value, k)
  {
    PowersOfTwo();
    hide LowBits, Pow2, ShiftRight;
    var u := ToUint32(value);
    WrappedBits(value, 8 + k);
    WrappedBits(value, k);
    BitsSplit(u, 8, k);
    var shifted := ShiftRight(u, k);
    HighBitsIgnored(shifted % 256, shifted / 256, 8, 8);
  }

  lemma OctetWritten(out: Bytes, value: int, bits: nat)
    requires 8 <= bits <= 12
    ensures OctetBits(out + [OctetAt(value, bits - 8)]) + LowBits(value, bits - 8) ==
              OctetBits(out) + LowBits(value, bits)
  {
    hide OctetBits, LowBits, OctetAt;
    ExtractedBits(value, bits - 8);
    OctetBitsSnoc(out, OctetAt(value, bits - 8));
  }

  lemma DigitAppended(out: Bytes, value: int, bits: nat, digits: seq<nat>, index: nat)
    requires index < 32 && bits < 8 && OctetBits(out) + LowBits(value, bits) == GroupBits(digits)
    ensures OctetBits(out) + LowBits(Append5(value, index), bits + 5) == GroupBits(digits + [index])
  {
    hide OctetBits, LowBits, GroupBits, Append5;
    AppendedBits(value, index, bits);
    GroupBitsSnoc(digits, index);
  }

  // ---- The decoder ----

  method DropPadding(compact: string) returns (clean: string)
    ensures clean == Unpadded(compact)
  {
    var end := |compact|;
    assert compact[..end] == compact;
    while end > 0 && compact[end - 1] == '='
      invariant 0 <= end <= |compact| && Unpadded(compact[..end]) == Unpadded(compact)
    {
      assert compact[..end][..end - 1] == compact[..end - 1];
      end := end - 1;
    }
    clean := compact[..end];
  }

  method Base32Decode(upper: char -> string, input: string) returns (r: Result<Bytes, char>)
    ensures r == Decoded(upper, input)
  {
    var clean := DropPadding(UpperCase(upper, WithoutSpaces(input)));
    var bits, value, out: Bytes := 0, 0, [];
    ghost var digits: seq<nat> := [];
    hide LowBits, OctetBits, GroupBits, Append5, OctetAt, Octets, IndexOf;
    hide DigitValue, DigitsOf, Unpadded, UpperCase, WithoutSpaces;
    NothingYet();
    assert clean[..0] == "";
    for i := 0 to |clean|
      invariant DigitsOf(clean[..i]) == Ok(digits)
      invariant 0 <= bits < 8 && OctetBits(out) + LowBits(value, bits) == GroupBits(digits)
    {
      NextDigit(clean, i);
      var index := DigitValue(clean[i]);
      if index == -1 {
        FirstInvalidStays(clean, i + 1);
        return Err(clean[i]);
      }
      DigitAppended(out, value, bits, digits, index);
      digits := digits + [index];
      value := Append5(value, index);
      bits := bits + 5;
      if bits >= 8 {
        OctetWritten(out, value, bits);
        out := out + [OctetAt(value, bits - 8)];
        bits := bits - 8;
      }
    }
    assert clean[..|clean|] == clean;
    OctetsOfBits(out, LowBits(value, bits));
    r := Ok(out);
  }

  lemma {:induction false} FirstInvalidStays(s: string, i: nat)
    requires i <= |s| && DigitsOf(s[..i]).Err?
    ensures DigitsOf(s) == DigitsOf(s[..i])
    decreases |s|
  {
    if i == |s| {
      assert s[..i] == s;
    } else {
      assert s[..|s| - 1][..i] == s[..i];
      FirstInvalidStays(s[..|s| - 1], i);
    }
  }

  // ---- It inverts the encoder ----

  lemma AlphabetAt(i: nat)
    requires i < 32
    ensures ALPHABET[i] as int == if i < 26 then 'A' as int + i else '2' as int + i - 26
  {
  }

  lemma AlphabetIndex(i: nat)
    requires i < 32
    ensures DigitValue(ALPHABET[i]) == i && ALPHABET[i] != '=' && !IsSpace(ALPHABET[i])
  {
    hide IndexOf;
    AlphabetAt(i);
    AlphabetAt(IndexOf(ALPHABET, ALPHABET[i]));
  }

  lemma {:induction false} DigitsOfEncoding(digits: seq<nat>, text: string)
    requires |text| == |digits| && forall i | 0 <= i < |digits| :: digits[i] < 32 && text[i] == ALPHABET[digits[i]]
    ensures DigitsOf(text) == Ok(digits)
  {
    if digits != [] {
      hide DigitValue;
      var n := |digits| - 1;
      DigitsOfEncoding(digits[..n], text[..n]);
      AlphabetIndex(digits[n]);
      assert digits == digits[..n] + [digits[n]];
    }
  }

  function Padding(n: nat): string {
    seq(n, _ => '=')
  }

  lemma {:induction false} UnpaddedDropsPadding(s: string, n: nat)
    requires '=' !in s
    ensures Unpadded(s + Padding(n)) == s
  {
    if n == 0 {
      assert s + Padding(0) == s;
    } else {
      assert (s + Padding(n))[..|s| + n - 1] == s + Padding(n - 1);
      UnpaddedDropsPadding(s, n - 1);
    }
  }

  /** Decoding inverts the encoding of section 6 of RFC 4648 on every byte string, with any amount of padding,
      however the text is spaced and cased. */
  lemma DecodeInvertsEncode(upper: char -> string, data: Bytes, padding: nat, text: string)
    requires UpperCase(upper, WithoutSpaces(text)) == Encode(data) + Padding(padding)
    ensures Decoded(upper, text) == Ok(data)
  {
    var bits := OctetBits(data);
    var digits := Groups(bits);
    forall i | 0 <= i < |digits|
      ensures Encode(data)[i] != '='
    {
      AlphabetIndex(digits[i]);
    }
    UnpaddedDropsPadding(Encode(data), padding);
    DigitsOfEncoding(digits, Encode(data));
    GroupsHoldBits(bits);
    OctetsOfBits(data, Zeros(5 * |digits| - |bits|));
  }

  // ---- The decoder on any text ----

  /** White space by its code points. */
  ghost predicate IsWhite(c: char) {
    var u := c as int;
    || 9 <= u <= 13 || u == 0x20 || u == 0xA0 || u == 0x1680 || 0x2000 <= u <= 0x200A || u == 0x2028 || u == 0x2029
    || u == 0x202F || u == 0x205F || u == 0x3000 || u == 0xFEFF
  }

  lemma SpacesAreWhite(c: char)
    ensures IsSpace(c) <==> IsWhite(c)
  {
  }

  /** A base32 digit has the value of its place in section 6 of RFC 4648: A to Z, then 2 to 7. */
  lemma DigitValues(c: char)
    ensures DigitValue(c) == if IsDigit32(c) then Value32(c) else -1
  {
    hide IndexOf;
    if IsDigit32(c) {
      AlphabetAt(Value32(c));
      assert ALPHABET[Value32(c)] == c;
    }
    if DigitValue(c) >= 0 { AlphabetAt(DigitValue(c)); }
  }

  /** A base32 digit: a capital letter or one of 2 to 7, by their codes. */
  ghost predicate IsDigit32(c: char) {
    65 <= c as int <= 90 || 50 <= c as int <= 55
  }

  ghost function Value32(c: char): (v: nat)
    requires IsDigit32(c)
    ensures v < 32
  {
    if c as int >= 65 then c as int - 65 else c as int - 50 + 26
  }

  /** Without its white space, and in upper case, the text reads as `plain`. */
  ghost predicate Spells(upper: char -> string, text: string, plain: string) {
    if text == "" then plain == ""
    else if IsWhite(text[0]) then Spells(upper, text[1..], plain)
    else plain != "" && upper(text[0]) == [plain[0]] && Spells(upper, text[1..], plain[1..])
  }

  lemma {:induction false} SpelledText(upper: char -> string, text: string, plain: string)
    requires Spells(upper, text, plain)
    ensures UpperCase(upper, WithoutSpaces(text)) == plain
  {
    if text != "" {
      SpacesAreWhite(text[0]);
      hide IsWhite, IsSpace;
      if IsWhite(text[0]) {
        SpelledText(upper, text[1..], plain);
        assert "" + WithoutSpaces(text[1..]) == WithoutSpaces(text[1..]);
      } else {
        SpelledText(upper, text[1..], plain[1..]);
        var rest := WithoutSpaces(text[1..]);
        assert WithoutSpaces(text) == [text[0]] + rest;
        assert ([text[0]] + rest)[1..] == rest;
        assert plain == [plain[0]] + plain[1..];
      }
    }
  }

  /** The first n characters are digits, and nothing but padding follows. */
  ghost predicate IsPadded(plain: string, n: nat) {
    && n <= |plain| && (forall i | 0 <= i < n :: IsDigit32(plain[i]))
    && forall i | n <= i < |plain| :: plain[i] == '='
  }

  /** The values of base32 digits. */
  ghost function Values32(s: string): (digits: seq<nat>)
    requires forall i | 0 <= i < |s| :: IsDigit32(s[i])
  {
    seq(|s|, i requires 0 <= i < |s| => Value32(s[i]))
  }

  lemma {:induction false} DigitsOfPlain(s: string)
    requires forall i | 0 <= i < |s| :: IsDigit32(s[i])
    ensures DigitsOf(s) == Ok(Values32(s))
  {
    if s != "" {
      var n := |s| - 1;
      DigitsOfPlain(s[..n]);
      DigitValues(s[n]);
      hide DigitValue, Value32;
      assert Values32(s) == Values32(s[..n]) + [Value32(s[n])];
    }
  }

  lemma {:induction false} FirstInvalid(s: string) returns (k: nat)
    requires exists i :: 0 <= i < |s| && !IsDigit32(s[i])
    ensures k < |s| && !IsDigit32(s[k]) && (forall i | 0 <= i < k :: IsDigit32(s[i])) && DigitsOf(s) == Err(s[k])
  {
    var n := |s| - 1;
    hide DigitValue, IsDigit32;
    if i :| 0 <= i < n && !IsDigit32(s[i]) {
      assert !IsDigit32(s[..n][i]);
      k := FirstInvalid(s[..n]);
    } else {
      k := n;
      DigitsOfPlain(s[..n]);
      DigitValues(s[n]);
    }
  }

  lemma {:induction false} UnpaddedIs(s: string)
    ensures Unpadded(s) <= s && (forall i | |Unpadded(s)| <= i < |s| :: s[i] == '=')
    ensures Unpadded(s) != "" ==> Unpadded(s)[|Unpadded(s)| - 1] != '='
  {
    if s != "" && s[|s| - 1] == '=' { UnpaddedIs(s[..|s| - 1]); }
  }

  lemma UnpaddedDigits(plain: string, n: nat)
    requires IsPadded(plain, n)
    ensures Unpadded(plain) == plain[..n]
  {
    var s := Unpadded(plain);
    UnpaddedIs(plain);
    hide Unpadded;
    assert |s| < |plain| ==> plain[|s|] == '=';
    assert s != "" ==> plain[|s| - 1] == s[|s| - 1] != '=';
    assert n == |s|;
  }

  lemma OneOctet(bits: seq<bool>)
    requires |bits| >= 8
    ensures OctetBits(Octets(bits)) == bits[..8] + OctetBits(Octets(bits[8..]))
  {
    hide OctetBits, LowBits, Octets;
    assert bits == bits[..8] + bits[8..];
    OctetsCons(bits[..8], bits[8..]);
    OctetBitsCons(ValueOf(bits[..8]) as byte, Octets(bits[8..]));
    LowBitsOfValue(bits[..8]);
  }

  lemma NoOctets(bits: seq<bool>)
    requires |bits| < 8
    ensures OctetBits(Octets(bits)) == []
  {
  }

  /** The octets hold the leading bits; fewer than eight are dropped. */
  lemma {:induction false} OctetsHoldBits(bits: seq<bool>)
    ensures OctetBits(Octets(bits)) == bits[..8 * (|bits| / 8)]
    decreases |bits|
  {
    hide OctetBits, Octets;
    if |bits| < 8 {
      NoOctets(bits);
    } else {
      OneOctet(bits);
      OctetsHoldBits(bits[8..]);
      assert |bits[8..]| / 8 == |bits| / 8 - 1;
      assert bits[..8 * (|bits| / 8)] == bits[..8] + bits[8..][..8 * (|bits[8..]| / 8)];
    }
  }

  /** A text that spells n digits and any padding decodes to the octets that the digits' bits fill. */
  lemma PaddedTextDecodes(upper: char -> string, text: string, plain: string, n: nat)
    requires Spells(upper, text, plain) && IsPadded(plain, n)
    ensures Decoded(upper, text).Ok? && |Decoded(upper, text).value| == 5 * n / 8
    ensures OctetBits(Decoded(upper, text).value) == GroupBits(Values32(plain[..n]))[..8 * (5 * n / 8)]
  {
    SpelledText(upper, text, plain);
    UnpaddedDigits(plain, n);
    DigitsOfPlain(plain[..n]);
    OctetsHoldBits(GroupBits(Values32(plain[..n])));
    hide Spells, UpperCase, WithoutSpaces, Unpadded, DigitsOf, Octets, GroupBits, OctetBits;
  }

  /** Any other text is refused with its first character that is no digit. */
  lemma OtherTextIsRefused(upper: char -> string, text: string, plain: string) returns (k: nat)
    requires Spells(upper, text, plain) && forall n: nat :: !IsPadded(plain, n)
    ensures k < |plain| && !IsDigit32(plain[k]) && forall i | 0 <= i < k :: IsDigit32(plain[i])
    ensures Decoded(upper, text) == Err(plain[k])
  {
    SpelledText(upper, text, plain);
    var s := Unpadded(plain);
    UnpaddedIs(plain);
    hide Spells, UpperCase, WithoutSpaces, Unpadded, DigitsOf;
    assert !IsPadded(plain, |s|);
    var i :| 0 <= i < |s| && !IsDigit32(plain[i]);
    assert s[i] == plain[i];
    k := FirstInvalid(s);
    assert forall i | 0 <= i <= k :: s[i] == plain[i];
  }

  /** Decoding inverts the encoding of section 6 of RFC 4648 on every byte string, with any amount of padding, white
      space anywhere, and letters in either case. */
  lemma SpacedEncodingDecodes(upper: char -> string, data: Bytes, padding: nat, text: string)
    requires Spells(upper, text, Encode(data) + Padding(padding))
    ensures Decoded(upper, text) == Ok(data)
  {
    SpelledText(upper, text, Encode(data) + Padding(padding));
    hide Spells, Encode;
    DecodeInvertsEncode(upper, data, padding, text);
  }

  lemma {:induction false} PlainTextStays(upper: char -> string, s: string)
    requires forall i | 0 <= i < |s| :: !IsSpace(s[i]) && upper(s[i]) == [s[i]]
    ensures UpperCase(upper, WithoutSpaces(s)) == s
  {
    if s != "" {
      PlainTextStays(upper, s[1..]);
      assert WithoutSpaces(s) == [s[0]] + WithoutSpaces(s[1..]);
      assert s == [s[0]] + s[1..];
    }
  }

  /** In particular the encoding itself decodes, padded or not. */
  lemma EncodingDecodes(upper: char -> string, data: Bytes, padding: nat)
    requires forall c | c in ALPHABET + "=" :: upper(c) == [c]
    ensures Decoded(upper, Encode(data) + Padding(padding)) == Ok(data)
  {
    var text := Encode(data) + Padding(padding);
    var digits := Groups(OctetBits(data));
    forall i | 0 <= i < |text|
      ensures !IsSpace(text[i]) && upper(text[i]) == [text[i]]
    {
      if i < |digits| {
        AlphabetIndex(digits[i]);
        assert text[i] == ALPHABET[digits[i]];
      } else {
        assert text[i] == '=';
      }
    }
    PlainTextStays(upper, text);
    DecodeInvertsEncode(upper, data, padding, text);
  }
}
