/** Percent-decoding in place (lib/malloy/core/utils.hpp). */
module UrlDecode {
  import Bits

  predicate IsBytes(s: string) {
    forall i | 0 <= i < |s| :: s[i] as int < 256
  }

  /** Characters that are not hexadecimal digits are returned as they are. */
  function Hex2Dec(c: char): (r: nat)
    ensures c as int < 256 ==> r < 256
  {
    if '0' <= c <= '9' then c as int - '0' as int
    else if 'a' <= c <= 'f' then c as int - ('a' as int - 10)
    else if 'A' <= c <= 'F' then c as int - ('A' as int - 10)
    else c as int
  }

  /** The byte `(hex2dec(hi) << 4) | hex2dec(lo)`, kept in eight bits. */
  function Unescape(hi: char, lo: char): (r: char)
    requires hi as int < 256 && lo as int < 256
    ensures r as int < 256
  {
    var h, l := Bits.Low8(16 * Hex2Dec(hi)), Hex2Dec(lo);
    Bits.OrBelow(h, l, 256);
    Bits.Or(h, l) as char
  }

  /** `str[i]` of a `std::string`, which may be read at its end. */
  function At(s: string, i: nat): char
    requires i <= |s|
  {
    if i < |s| then s[i] else 0 as char
  }

  /** Every '%' the scan meets is followed by two readable positions. */
  predicate Scannable(s: string) {
    s == "" ||
    if s[0] == '%' then |s| >= 2 && (|s| == 2 || Scannable(s[3..]))
    else Scannable(s[1..])
  }

  function Decode(s: string): (r: string)
    requires IsBytes(s) && Scannable(s)
    ensures IsBytes(r)
  {
    if s == "" then ""
    else if s[0] == '%' then
      [Unescape(s[1], At(s, 2))] + if |s| == 2 then "" else Decode(s[3..])
    else [s[0]] + Decode(s[1..])
  }

  /** How many '%' the scan meets. */
  function Escapes(s: string): nat {
    if s == "" then 0
    else if s[0] == '%' then 1 + (if |s| <= 3 then 0 else Escapes(s[3..]))
    else Escapes(s[1..])
  }

  // ----- The encoder of RFC 3986, section 2.1 ---------------------------------

  /** How one byte is written: as itself, or escaped with digits of either case. */
  datatype Choice = Literal | Escaped(upperHi: bool, upperLo: bool)

  function HexDigit(n: nat, upper: bool): char
    requires n < 16
  {
    if upper then "0123456789ABCDEF"[n] else "0123456789abcdef"[n]
  }

  /** A '%' cannot be written as itself. */
  predicate Encodable(s: string, choices: seq<Choice>) {
    && IsBytes(s)
    && |choices| == |s|
    && forall i | 0 <= i < |s| && s[i] == '%' :: choices[i] != Literal
  }

  function EncodeByte(c: char, choice: Choice): string
    requires c as int < 256
  {
    match choice
    case Literal => [c]
    case Escaped(u, v) => ['%', HexDigit(c as int / 16, u), HexDigit(c as int % 16, v)]
  }

  function Encode(s: string, choices: seq<Choice>): string
    requires Encodable(s, choices)
  {
    if s == "" then "" else EncodeByte(s[0], choices[0]) + Encode(s[1..], choices[1..])
  }

  lemma HexDigitValue(n: nat, upper: bool)
    requires n < 16
    ensures HexDigit(n, upper) as int < 256 && Hex2Dec(HexDigit(n, upper)) == n
  {
  }

  /** The digits of both cases have their values, and every other byte has its own code. */
  lemma DigitValues(c: char)
    ensures forall i | 0 <= i < 16 :: "0123456789abcdef"[i] == c || "0123456789ABCDEF"[i] == c ==> Hex2Dec(c) == i
    ensures c !in "0123456789abcdefABCDEF" ==> Hex2Dec(c) == c as int
  {
    if c !in "0123456789abcdefABCDEF" {
      assert c != '0' && c != '1' && c != '2' && c != '3' && c != '4' && c != '5' && c != '6' && c != '7' && c != '8'
             && c != '9';
    }
  }

  /** Whatever two bytes follow a '%': the bits of the byte are those of the first, shifted, and of the second. */
  lemma EscapeBits(hi: char, lo: char, rest: string, place: nat)
    requires IsBytes([hi, lo] + rest) && Scannable(rest) && place < 8
    ensures var s := ['%', hi, lo] + rest;
            && IsBytes(s) && Scannable(s) && |Decode(s)| == 1 + |Decode(rest)| && Decode(s)[1..] == Decode(rest)
            && (Bits.Bit(Decode(s)[0] as int, place) <==>
                (place >= 4 && Bits.Bit(Hex2Dec(hi), place - 4)) || Bits.Bit(Hex2Dec(lo), place))
  {
    var s := ['%', hi, lo] + rest;
    assert s[3..] == rest;
    assert forall i | 0 <= i < |rest| :: rest[i] == ([hi, lo] + rest)[i + 2];
    assert ([hi, lo] + rest)[0] == hi && ([hi, lo] + rest)[1] == lo;
    UnescapeBits(hi, lo, place);
    hide Unescape, Hex2Dec, Bits.Bit;
  }

  lemma UnescapeBits(hi: char, lo: char, place: nat)
    requires hi as int < 256 && lo as int < 256 && place < 8
    ensures Bits.Bit(Unescape(hi, lo) as int, place) <==>
            (place >= 4 && Bits.Bit(Hex2Dec(hi), place - 4)) || Bits.Bit(Hex2Dec(lo), place)
  {
    var h, l := Bits.Low8(16 * Hex2Dec(hi)), Hex2Dec(lo);
    Bits.OrBelow(h, l, 256);
    assert Unescape(hi, lo) as int == Bits.Or(h, l);
    hide Unescape, Hex2Dec, Bits.Bit, Bits.Or, Bits.Low8;
    Bits.OrBit(h, l, place);
    ShiftedBits(Hex2Dec(hi), place);
  }

  /** Shifting by four moves the bits up, and what leaves eight bits is lost. */
  lemma ShiftedBits(n: nat, place: nat)
    requires place < 8
    ensures Bits.Bit(Bits.Low8(16 * n), place) <==> place >= 4 && Bits.Bit(n, place - 4)
  {
    BitsBelow(16 * n, 256, place);
    Shifted(8 * n, place);
    if place > 0 {
      Shifted(4 * n, place - 1);
    }
    if place > 1 {
      Shifted(2 * n, place - 2);
    }
    if place > 2 {
      Shifted(n, place - 3);
    }
  }

  lemma Shifted(n: nat, place: nat)
    ensures Bits.Bit(2 * n, place) <==> place > 0 && Bits.Bit(n, place - 1)
  {
  }

  /** A remainder by a power of two keeps the bits below it. */
  lemma {:induction false} BitsBelow(n: nat, m: nat, place: nat)
    requires (place == 0 && m == 2) || (m in {4, 8, 16, 32, 64, 128, 256} && place < 8)
    requires place > 0 ==> (place == 1 && m >= 4) || (place == 2 && m >= 8) || (place == 3 && m >= 16)
                           || (place == 4 && m >= 32) || (place == 5 && m >= 64) || (place == 6 && m >= 128)
                           || (place == 7 && m >= 256)
    ensures Bits.Bit(n % m, place) <==> Bits.Bit(n, place)
    decreases place
  {
    HalfOfRemainder(n, m);
    if place > 0 {
      BitsBelow(n / 2, m / 2, place - 1);
    }
  }

  lemma HalfOfRemainder(n: nat, m: nat)
    requires m in {2, 4, 8, 16, 32, 64, 128, 256}
    ensures n % m % 2 == n % 2
    ensures n % m / 2 == n / 2 % (m / 2)
  {
    var q, r := n / m, n % m;
    var k := m / 2;
    assert m == 2 * k && n == 2 * (k * q) + r by {
      Doubled(k, q);
    }
    Bits.DivModUnique(n / 2, k, q, r / 2);
  }

  lemma Doubled(k: nat, q: nat)
    ensures 2 * k * q == 2 * (k * q)
  {
  }

  /** An escape that the text ends in, as if a NUL stood behind it. */
  lemma LastEscape(hi: char, place: nat)
    requires hi as int < 256 && place < 8
    ensures var s := ['%', hi];
            && IsBytes(s) && Scannable(s) && |Decode(s)| == 1
            && (Bits.Bit(Decode(s)[0] as int, place) <==> place >= 4 && Bits.Bit(Hex2Dec(hi), place - 4))
  {
    UnescapeBits(hi, 0 as char, place);
    assert Hex2Dec(0 as char) == 0;
    NoBits(place);
    hide Unescape, Hex2Dec, Bits.Bit;
  }

  lemma NoBits(place: nat)
    ensures !Bits.Bit(0, place)
  {
  }

  lemma UnescapeDigits(hi: nat, lo: nat, u: bool, v: bool)
    requires hi < 16 && lo < 16
    ensures HexDigit(hi, u) as int < 256 && HexDigit(lo, v) as int < 256
    ensures Unescape(HexDigit(hi, u), HexDigit(lo, v)) as int == 16 * hi + lo
  {
    HexDigitValue(hi, u);
    HexDigitValue(lo, v);
    hide Hex2Dec, HexDigit, Bits.Or, Bits.Low8;
    Bits.OrNibble(hi, lo);
  }

  lemma UnescapeHexDigits(b: nat, u: bool, v: bool)
    requires b < 256
    ensures HexDigit(b / 16, u) as int < 256 && HexDigit(b % 16, v) as int < 256
    ensures Unescape(HexDigit(b / 16, u), HexDigit(b % 16, v)) as int == b
  {
    hide HexDigit, Unescape;
    UnescapeDigits(b / 16, b % 16, u, v);
  }

  /** Decoding undoes every way of encoding. */
  lemma {:induction false} DecodeOfEncode(s: string, choices: seq<Choice>)
    requires Encodable(s, choices)
    ensures IsBytes(Encode(s, choices)) && Scannable(Encode(s, choices))
    ensures Decode(Encode(s, choices)) == s
  {
    if s != "" {
      FirstEncoded(s, choices);
      hide *;
      DecodeOfEncode(s[1..], choices[1..]);
      DecodeByte(s[0], choices[0], Encode(s[1..], choices[1..]));
      assert s == [s[0]] + s[1..];
    }
  }

  lemma FirstEncoded(s: string, choices: seq<Choice>)
    requires s != "" && Encodable(s, choices)
    ensures |choices| == |s| && s[0] as int < 256 && (s[0] == '%' ==> choices[0] != Literal)
    ensures Encodable(s[1..], choices[1..])
    ensures Encode(s, choices) == EncodeByte(s[0], choices[0]) + Encode(s[1..], choices[1..])
  {
  }

  lemma DecodeByte(c: char, choice: Choice, rest: string)
    requires c as int < 256 && (c == '%' ==> choice != Literal) && IsBytes(rest) && Scannable(rest)
    ensures var s := EncodeByte(c, choice) + rest;
            IsBytes(s) && Scannable(s) && Decode(s) == [c] + Decode(rest)
  {
    match choice
    case Literal =>
      assert EncodeByte(c, choice) == [c];
      hide *;
      DecodeLiteral(c, rest);
    case Escaped(u, v) =>
      hide *;
      DecodeEscaped(c, u, v, rest);
  }

  lemma DecodeLiteral(c: char, rest: string)
    requires c as int < 256 && c != '%' && IsBytes(rest) && Scannable(rest)
    ensures IsBytes([c] + rest) && Scannable([c] + rest) && Decode([c] + rest) == [c] + Decode(rest)
  {
    hide Unescape;
    assert ([c] + rest)[1..] == rest;
  }

  lemma DecodeEscaped(c: char, u: bool, v: bool, rest: string)
    requires c as int < 256 && IsBytes(rest) && Scannable(rest)
    ensures var s := EncodeByte(c, Escaped(u, v)) + rest;
            IsBytes(s) && Scannable(s) && Decode(s) == [c] + Decode(rest)
  {
    var s := EncodeByte(c, Escaped(u, v)) + rest;
    UnescapeHexDigits(c as int, u, v);
    hide Unescape, HexDigit;
    assert s[3..] == rest;
  }

  predicate IsHexDigit(c: char) {
    '0' <= c <= '9' || 'a' <= c <= 'f' || 'A' <= c <= 'F'
  }

  /** Every '%' the scan meets is followed by two hexadecimal digits. */
  predicate WellFormed(e: string) {
    e == "" ||
    if e[0] == '%' then |e| >= 3 && IsHexDigit(e[1]) && IsHexDigit(e[2]) && WellFormed(e[3..])
    else WellFormed(e[1..])
  }

  lemma HexDigitOfValue(c: char)
    requires IsHexDigit(c)
    ensures Hex2Dec(c) < 16 && HexDigit(Hex2Dec(c), 'A' <= c <= 'F') == c
  {
  }

  lemma Quotient(h: nat, l: nat)
    requires l < 16
    ensures (16 * h + l) / 16 == h && (16 * h + l) % 16 == l
  {
  }

  lemma DigitsOfByte(h: nat, l: nat, u: bool, v: bool)
    requires h < 16 && l < 16
    ensures EncodeByte((16 * h + l) as char, Escaped(u, v)) == ['%', HexDigit(h, u), HexDigit(l, v)]
  {
    hide HexDigit;
    Quotient(h, l);
  }

  lemma DigitsOfUnescape(hi: char, lo: char)
    requires IsHexDigit(hi) && IsHexDigit(lo)
    ensures EncodeByte(Unescape(hi, lo), Escaped('A' <= hi <= 'F', 'A' <= lo <= 'F')) == ['%', hi, lo]
  {
    HexDigitOfValue(hi);
    HexDigitOfValue(lo);
    var h, l, u, v := Hex2Dec(hi), Hex2Dec(lo), 'A' <= hi <= 'F', 'A' <= lo <= 'F';
    hide HexDigit, Hex2Dec, Unescape, EncodeByte, IsHexDigit;
    UnescapeDigits(h, l, u, v);
    DigitsOfByte(h, l, u, v);
  }

  /** Every well-formed text is an encoding of what it decodes to, two bytes longer for each escape. */
  lemma {:induction false} EncodeOfDecode(e: string) returns (choices: seq<Choice>)
    requires IsBytes(e) && WellFormed(e)
    ensures Scannable(e) && Encodable(Decode(e), choices) && Encode(Decode(e), choices) == e
    ensures |Decode(e)| + 2 * Escapes(e) == |e|
  {
    if e == "" {
      choices := [];
    } else {
      var next := if e[0] == '%' then 3 else 1;
      var tail := EncodeOfDecode(e[next..]);
      hide EncodeByte, Unescape, IsHexDigit;
      var choice := ChoiceOf(e);
      choices := [choice] + tail;
      assert choices[1..] == tail && Decode(e)[1..] == Decode(e[next..]);
      EncodePrepended(Decode(e), choices);
      hide Encode, WellFormed, Scannable;
      assert e == e[..next] + e[next..];
    }
  }

  /** How the first byte of a well-formed text is written. */
  lemma ChoiceOf(e: string) returns (choice: Choice)
    requires IsBytes(e) && WellFormed(e) && e != ""
    ensures e[0] != '%' ==> choice == Literal && EncodeByte(e[0], choice) == e[..1]
    ensures e[0] == '%' ==> choice != Literal && |e| >= 3 && EncodeByte(Unescape(e[1], e[2]), choice) == e[..3]
  {
    hide Unescape;
    if e[0] == '%' {
      DigitsOfUnescape(e[1], e[2]);
      choice := Escaped('A' <= e[1] <= 'F', 'A' <= e[2] <= 'F');
      hide EncodeByte, WellFormed;
      assert e[..3] == ['%', e[1], e[2]];
    } else {
      choice := Literal;
    }
  }

  lemma EncodePrepended(s: string, choices: seq<Choice>)
    requires s != "" && choices != [] && IsBytes(s) && Encodable(s[1..], choices[1..])
    requires s[0] == '%' ==> choices[0] != Literal
    ensures Encodable(s, choices)
    ensures Encode(s, choices) == EncodeByte(s[0], choices[0]) + Encode(s[1..], choices[1..])
  {
    assert s == [s[0]] + s[1..] && choices == [choices[0]] + choices[1..];
  }

  // ----- The code -------------------------------------------------------------

  /**
   The scan of `input` stands at `r` and has written up to `w`; `now` is what
   the string holds. What is written and what is left decode to the whole.
   */
  ghost predicate Scan(input: string, now: string, r: nat, w: nat) {
    var rest := if r < |input| then input[r..] else "";
    && |now| == |input| && w <= r && w <= |input|
    && (forall i | r <= i < |input| :: now[i] == input[i])
    && IsBytes(input) && Scannable(input) && Scannable(rest) && IsBytes(rest)
    && now[..w] + Decode(rest) == Decode(input)
  }

  lemma ScanStarts(input: string)
    requires IsBytes(input) && Scannable(input)
    ensures Scan(input, input, 0, 0)
  {
    assert input[0..] == input;
    assert input[..0] + Decode(input) == Decode(input);
  }

  lemma Rewritten(now: string, w: nat, v: char, rest: string, tail: string)
    requires w < |now| && rest == [v] + tail
    ensures now[w := v][..w + 1] + tail == now[..w] + rest
  {
    assert now[w := v][..w + 1] == now[..w] + [v];
  }

  lemma ScanMeets(input: string, now: string, r: nat, w: nat)
    requires Scan(input, now, r, w) && r < |input|
    ensures w < |now| && now[r..] == input[r..] && IsBytes(now[r..]) && Scannable(now[r..])
    ensures now[..w] + Decode(now[r..]) == Decode(input)
  {
    hide Decode, Scannable, IsBytes;
  }

  /** One turn at a character that is not escaped. */
  lemma PlainTurn(input: string, now: string, r: nat, w: nat)
    requires Scan(input, now, r, w) && r < |input| && now[r] != '%'
    ensures w < |now| && Scan(input, now[w := now[r]], r + 1, w + 1)
  {
    ScanMeets(input, now, r, w);
    var s := now[r..];
    hide Unescape;
    assert s[1..] == now[r + 1..] == input[r + 1..];
    assert r + 1 == |input| ==> s[1..] == "";
    Rewritten(now, w, now[r], Decode(s), Decode(s[1..]));
    hide Decode, Scannable, IsBytes;
  }

  /** One turn at an escape; its second digit may be the end of the string. */
  lemma EscapeTurn(input: string, now: string, r: nat, w: nat)
    requires Scan(input, now, r, w) && r < |input| && now[r] == '%'
    ensures w < |now| && r + 1 < |input| && now[r + 1] as int < 256 && At(now, r + 2) as int < 256
    ensures Scan(input, now[w := Unescape(now[r + 1], At(now, r + 2))], r + 3, w + 1)
  {
    ScanMeets(input, now, r, w);
    var s := now[r..];
    var next := if |s| == 2 then "" else s[3..];
    hide Unescape;
    assert s[1] == now[r + 1] && At(s, 2) == At(now, r + 2);
    assert |s| > 2 ==> s[3..] == now[r + 3..] == input[r + 3..];
    assert r + 3 == |input| ==> next == "";
    Rewritten(now, w, Unescape(s[1], At(s, 2)), Decode(s), Decode(next));
    hide Decode, Scannable, IsBytes;
  }

  lemma ScanEnds(input: string, now: string, r: nat, w: nat)
    requires Scan(input, now, r, w) && r >= |input|
    ensures now[..w] == Decode(input)
  {
    assert now[..w] + "" == now[..w];
  }

  /**
   `url_decode`: overwrites the start of the string and returns the length it
   is resized to. The write index never passes the read index.
   */
  method UrlDecode(str: array<char>) returns (w: nat)
    requires IsBytes(str[..]) && Scannable(str[..])
    modifies str
    ensures w <= str.Length && str[..w] == Decode(old(str[..]))
  {
    hide Scan, Decode, Scannable, IsBytes, Unescape;
    w := 0;
    var r := 0;
    ghost var input := str[..];
    ScanStarts(input);
    while r < str.Length
      invariant w <= str.Length && Scan(input, str[..], r, w)
    {
      ghost var now := str[..];
      var v := str[r];
      if v != '%' {
        PlainTurn(input, now, r, w);
      } else {
        EscapeTurn(input, now, r, w);
        r := r + 1;
        var hi := str[r];
        r := r + 1;
        var lo := if r < str.Length then str[r] else 0 as char;
        v := Unescape(hi, lo);
      }
      str[w] := v;
      assert str[..] == now[w := v];
      w := w + 1;
      r := r + 1;
    }
    ScanEnds(input, str[..], r, w);
  }
}
