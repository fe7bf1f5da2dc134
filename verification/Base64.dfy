/**
 The base64 decoder of the Basic authentication example
 (examples/server/routing/policies/main.cpp), and the encoder of section 4 of
 RFC 4648. Bytes are characters with a code below 256.
 */
module Base64 {
  import opened Wrappers
  import Bits

  /** The value of a character; 64 for one that is not in the alphabet. */
  function Sextet(c: char): (r: nat)
    ensures r <= 64 && (c as int > 127 ==> r == 64)
  {
    if 'A' <= c <= 'Z' then c as int - 'A' as int
    else if 'a' <= c <= 'z' then c as int - 'a' as int + 26
    else if '0' <= c <= '9' then c as int - '0' as int + 52
    else if c == '+' then 62
    else if c == '/' then 63
    else 64
  }

  predicate IsSpace(c: char) {
    c == ' ' || 9 <= c as int <= 13
  }

  predicate IsSkipped(c: char) {
    IsSpace(c) || c == '='
  }

  predicate IsLegal(c: char) {
    IsSkipped(c) || Sextet(c) < 64
  }

  predicate AllLegal(s: string) {
    forall i | 0 <= i < |s| :: IsLegal(s[i])
  }

  type Six = n: nat | n < 64

  /** The values of the characters that are not skipped. */
  function Significant(input: string): (r: seq<Six>)
    requires AllLegal(input)
    ensures |r| <= |input|
  {
    if input == "" then []
    else if IsSkipped(input[0]) then Significant(input[1..])
    else
      assert IsLegal(input[0]);
      [Sextet(input[0])] + Significant(input[1..])
  }

  /** The weight of the pending bits. */
  function Weight(bits: nat): nat
    requires bits in {0, 2, 4, 6}
  {
    if bits == 0 then 1 else if bits == 2 then 4 else if bits == 4 then 16 else 64
  }

  function ByteOf(n: nat): char {
    (n % 256) as char
  }

  /** The bytes completed by `sextets` when `bits` bits of value `pending` wait; left-over bits are dropped. */
  function Pack(sextets: seq<Six>, pending: nat, bits: nat): string
    requires bits in {0, 2, 4, 6} && pending < Weight(bits)
  {
    if sextets == [] then ""
    else if bits == 0 then Pack(sextets[1..], sextets[0], 6)
    else
      var value := 64 * pending + sextets[0];
      [ByteOf(value / Weight(bits - 2))] + Pack(sextets[1..], value % Weight(bits - 2), bits - 2)
  }

  function Decoded(input: string): string
    requires AllLegal(input)
  {
    Pack(Significant(input), 0, 0)
  }

  // ----- The encoder ------------------------------------------------------------------

  predicate IsBytes(s: string) {
    forall i | 0 <= i < |s| :: s[i] as int < 256
  }

  function Letter(n: nat): char
    requires n < 64
  {
    if n < 26 then ('A' as int + n) as char
    else if n < 52 then ('a' as int + (n - 26)) as char
    else if n < 62 then ('0' as int + (n - 52)) as char
    else if n == 62 then '+'
    else '/'
  }

  /** Three bytes make four letters; one or two left over are padded with '='. */
  function Encode(bytes: string): string
    requires IsBytes(bytes)
  {
    if |bytes| == 0 then ""
    else
      var a := bytes[0] as int;
      if |bytes| == 1 then [Letter(a / 4), Letter(a % 4 * 16), '=', '=']
      else
        var b := bytes[1] as int;
        if |bytes| == 2 then [Letter(a / 4), Letter(a % 4 * 16 + b / 16), Letter(b % 16 * 4), '=']
        else
          var c := bytes[2] as int;
          [Letter(a / 4), Letter(a % 4 * 16 + b / 16), Letter(b % 16 * 4 + c / 64), Letter(c % 64)]
          + Encode(bytes[3..])
  }

  /** A text without its whitespace and '='. */
  function Stripped(text: string): string {
    if text == "" then ""
    else (if IsSkipped(text[0]) then [] else [text[0]]) + Stripped(text[1..])
  }

  // ----- Which characters count, and for what -------------------------------------------

  /** Whitespace and padding. */
  const PASSED_OVER := " \t\n\U{0B}\U{0C}\r="

  /** Table 1 of section 4 of RFC 4648. */
  predicate IsLetter(c: char) {
    exists n: nat | n < 64 :: Letter(n) == c
  }

  /** The table: four runs of consecutive characters, and the last two. */
  lemma TableOfLetters(n: nat)
    requires n < 64
    ensures Letter(0) == 'A' && Letter(26) == 'a' && Letter(52) == '0' && Letter(62) == '+' && Letter(63) == '/'
    ensures n !in {0, 26, 52, 62, 63} ==> Letter(n) as int == Letter(n - 1) as int + 1
  {
  }

  /** A letter counts for what it encodes. */
  lemma LetterMeaning(c: char)
    ensures Sextet(c) < 64 <==> IsLetter(c)
    ensures Sextet(c) < 64 ==> Letter(Sextet(c)) == c
  {
    if Sextet(c) < 64 {
      assert Letter(Sextet(c)) == c;
    } else if IsLetter(c) {
      var n: nat :| n < 64 && Letter(n) == c;
      LetterSextet(n);
      assert false;
    }
  }

  /** These characters are passed over, and with the letters they are all that is legal. */
  lemma LegalCharacters(c: char)
    ensures IsSkipped(c) <==> c in PASSED_OVER
    ensures IsLegal(c) <==> IsLetter(c) || c in PASSED_OVER
  {
    PassedOver(c);
    LetterMeaning(c);
  }

  lemma PassedOver(c: char)
    ensures c in PASSED_OVER <==> c == ' ' || 9 <= c as int <= 13 || c == '='
  {
    assert PASSED_OVER[0] == ' ' && PASSED_OVER[6] == '=' && |PASSED_OVER| == 7;
    assert forall i | 1 <= i < 6 :: PASSED_OVER[i] as int == 8 + i;
    if 9 <= c as int <= 13 {
      assert PASSED_OVER[c as int - 8] == c;
    }
  }

  lemma {:induction false} SignificantAppend(a: string, b: string)
    ensures AllLegal(a + b) <==> AllLegal(a) && AllLegal(b)
    ensures AllLegal(a + b) ==> Significant(a + b) == Significant(a) + Significant(b)
  {
    assert AllLegal(a) && AllLegal(b) ==> AllLegal(a + b);
    if AllLegal(a + b) {
      assert forall i | 0 <= i < |a| :: (a + b)[i] == a[i];
      assert forall i | 0 <= i < |b| :: (a + b)[|a| + i] == b[i];
      if a == "" {
        assert a + b == b;
      } else {
        assert (a + b)[1..] == a[1..] + b;
        SignificantAppend(a[1..], b);
      }
    }
  }

  /** Whitespace and padding may stand anywhere. */
  lemma PassedOverAnywhere(a: string, c: char, b: string)
    requires c in PASSED_OVER
    ensures AllLegal(a + [c] + b) <==> AllLegal(a + b)
    ensures AllLegal(a + b) ==> Decoded(a + [c] + b) == Decoded(a + b)
  {
    LegalCharacters(c);
    assert [c][1..] == "";
    SignificantAppend(a, b);
    SignificantAppend(a, [c]);
    SignificantAppend(a + [c], b);
    hide IsLegal;
    if AllLegal(a + b) {
      assert Significant([c]) == [];
      assert Significant(a) + [] == Significant(a);
    }
  }

  /** The number whose digits to the base 64 are `digits`, behind `before`. */
  function Value64(digits: seq<Six>, before: nat): nat {
    if digits == [] then before else Value64(digits[1..], 64 * before + digits[0])
  }

  /** The number whose digits to the base 256 are `bytes`, behind `before`. */
  function Value256(bytes: string, before: nat): nat {
    if bytes == "" then before else Value256(bytes[1..], 256 * before + bytes[0] as int)
  }

  /** A number with some bits behind it. */
  function Behind(before: nat, bits: nat, pending: nat): nat
    requires bits in {0, 2, 4, 6}
  {
    if bits == 0 then before + pending
    else if bits == 2 then 4 * before + pending
    else if bits == 4 then 16 * before + pending
    else 64 * before + pending
  }

  /** So many letters, behind `bits` bits, make so many bytes and leave the rest. */
  predicate IsLeft(letters: nat, bits: nat, bytes: nat, end: nat) {
    bits + 6 * letters == 8 * bytes + end
  }

  lemma {:induction false} PackValue(sextets: seq<Six>, pending: nat, bits: nat, before: nat)
    returns (end: nat, left: nat)
    requires bits in {0, 2, 4, 6} && pending < Weight(bits)
    ensures IsLeft(|sextets|, bits, |Pack(sextets, pending, bits)|, end) && end in {0, 2, 4, 6} && left < Weight(end)
    ensures Value64(sextets, Behind(before, bits, pending))
            == Behind(Value256(Pack(sextets, pending, bits), before), end, left)
    decreases |sextets|
  {
    if sextets == [] {
      NothingToPack(pending, bits, before);
      end, left := bits, pending;
    } else if bits == 0 {
      FirstTurn(sextets, pending, before);
      hide Value64, Value256, Behind, Weight, Pack;
      end, left := PackValue(sextets[1..], sextets[0], 6, before);
    } else {
      hide Value64, Value256, Behind, Weight, Pack, Waiting, Completed, ByteOf;
      LettersTurn(sextets, pending, bits, before);
      BytesTurn(sextets, pending, bits, before);
      end, left := PackValue(sextets[1..], Waiting(pending, bits, sextets[0]), bits - 2,
                             256 * before + Completed(pending, bits, sextets[0]));
    }
  }

  lemma NothingToPack(pending: nat, bits: nat, before: nat)
    requires bits in {0, 2, 4, 6} && pending < Weight(bits)
    ensures IsLeft(0, bits, 0, bits)
    ensures Value64([], Behind(before, bits, pending)) == Behind(before, bits, pending)
    ensures Value256(Pack([], pending, bits), before) == before
  {
  }

  /** The first letter of a group of four only waits. */
  lemma FirstTurn(sextets: seq<Six>, pending: nat, before: nat)
    requires sextets != [] && pending < Weight(0)
    ensures sextets[0] < Weight(6)
    ensures Value64(sextets, Behind(before, 0, pending)) == Value64(sextets[1..], Behind(before, 6, sextets[0]))
    ensures Pack(sextets, pending, 0) == Pack(sextets[1..], sextets[0], 6)
  {
  }

  /** The byte that a letter completes, and the bits that wait behind it. */
  function Completed(pending: nat, bits: nat, sextet: Six): nat
    requires bits in {2, 4, 6}
  {
    (64 * pending + sextet) / Weight(bits - 2)
  }

  function Waiting(pending: nat, bits: nat, sextet: Six): nat
    requires bits in {2, 4, 6}
  {
    (64 * pending + sextet) % Weight(bits - 2)
  }

  lemma ByteFits(pending: nat, bits: nat, sextet: Six)
    requires bits in {2, 4, 6} && pending < Weight(bits)
    ensures ByteOf(Completed(pending, bits, sextet)) as int == Completed(pending, bits, sextet)
    ensures Waiting(pending, bits, sextet) < Weight(bits - 2)
  {
  }

  lemma ShiftedValue(before: nat, pending: nat, bits: nat, sextet: Six)
    requires bits in {2, 4, 6} && pending < Weight(bits)
    ensures 64 * Behind(before, bits, pending) + sextet
            == Behind(256 * before + Completed(pending, bits, sextet), bits - 2, Waiting(pending, bits, sextet))
  {
    if bits == 2 {
    } else if bits == 4 {
    } else {
    }
  }

  lemma NextLetter(sextets: seq<Six>, n: nat)
    requires sextets != []
    ensures Value64(sextets, n) == Value64(sextets[1..], 64 * n + sextets[0])
  {
  }

  lemma NextByte(byte: char, bytes: string, n: nat)
    ensures Value256([byte] + bytes, n) == Value256(bytes, 256 * n + byte as int)
  {
    assert ([byte] + bytes)[1..] == bytes;
  }

  /** Every other letter completes a byte: in the number of the letters, */
  lemma LettersTurn(sextets: seq<Six>, pending: nat, bits: nat, before: nat)
    requires sextets != [] && bits in {2, 4, 6} && pending < Weight(bits)
    ensures Value64(sextets, Behind(before, bits, pending))
            == Value64(sextets[1..], Behind(256 * before + Completed(pending, bits, sextets[0]), bits - 2,
                                            Waiting(pending, bits, sextets[0])))
  {
    hide *;
    NextLetter(sextets, Behind(before, bits, pending));
    ShiftedValue(before, pending, bits, sextets[0]);
  }

  /** and in that of the bytes. */
  lemma BytesTurn(sextets: seq<Six>, pending: nat, bits: nat, before: nat)
    requires sextets != [] && bits in {2, 4, 6} && pending < Weight(bits)
    ensures Waiting(pending, bits, sextets[0]) < Weight(bits - 2)
    ensures |Pack(sextets, pending, bits)| == 1 + |Pack(sextets[1..], Waiting(pending, bits, sextets[0]), bits - 2)|
    ensures Value256(Pack(sextets, pending, bits), before)
            == Value256(Pack(sextets[1..], Waiting(pending, bits, sextets[0]), bits - 2),
                        256 * before + Completed(pending, bits, sextets[0]))
  {
    hide *;
    ByteFits(pending, bits, sextets[0]);
    LetterCompletes(sextets, pending, bits);
    NextByte(ByteOf(Completed(pending, bits, sextets[0])),
             Pack(sextets[1..], Waiting(pending, bits, sextets[0]), bits - 2), before);
  }

  lemma LetterCompletes(sextets: seq<Six>, pending: nat, bits: nat)
    requires sextets != [] && bits in {2, 4, 6} && pending < Weight(bits)
    ensures Waiting(pending, bits, sextets[0]) < Weight(bits - 2)
    ensures Pack(sextets, pending, bits)
            == [ByteOf(Completed(pending, bits, sextets[0]))]
               + Pack(sextets[1..], Waiting(pending, bits, sextets[0]), bits - 2)
  {
    ByteFits(pending, bits, sextets[0]);
    PackLetter(sextets, pending, bits);
    hide Pack, Weight, ByteOf;
  }

  /**
   Decoding any legal text: the letters are the digits of a number to the base
   64, the bytes those of the same number to the base 256, without the bits left
   over behind the last whole byte.
   */
  lemma SameNumber(text: string) returns (end: nat, left: nat)
    requires AllLegal(text)
    ensures var digits := Significant(text);
            && 6 * |digits| == 8 * |Decoded(text)| + end && end in {0, 2, 4, 6}
            && left < Weight(end) && Value64(digits, 0) == Behind(Value256(Decoded(text), 0), end, left)
  {
    NothingBefore();
    end, left := PackValue(Significant(text), 0, 0, 0);
    hide Pack, Value64, Value256, Significant, Behind;
  }

  lemma NothingBefore()
    ensures Behind(0, 0, 0) == 0
  {
  }

  // ----- Decoding undoes encoding -------------------------------------------------------

  lemma LetterSextet(n: nat)
    requires n < 64
    ensures Sextet(Letter(n)) == n && !IsSkipped(Letter(n))
  {
  }

  lemma {:induction false} SignificantOfStripped(text: string)
    ensures AllLegal(text) <==> AllLegal(Stripped(text))
    ensures AllLegal(text) ==> Significant(text) == Significant(Stripped(text))
  {
    if text != "" {
      SignificantOfStripped(text[1..]);
      SkippedIsLegal(text[0]);
      StrippedHead(text);
      LegalHead(text);
      if !IsSkipped(text[0]) {
        LegalHead(Stripped(text));
      }
    }
  }

  lemma LegalHead(s: string)
    requires s != ""
    ensures AllLegal(s) <==> IsLegal(s[0]) && AllLegal(s[1..])
  {
    hide IsLegal;
    if IsLegal(s[0]) && AllLegal(s[1..]) {
      forall i | 0 <= i < |s|
        ensures IsLegal(s[i])
      {
        assert i > 0 ==> s[i] == s[1..][i - 1];
      }
    }
  }

  /** Letters are kept, everything skipped is dropped. */
  lemma StrippedHead(text: string)
    requires text != ""
    ensures IsSkipped(text[0]) ==> Stripped(text) == Stripped(text[1..])
    ensures !IsSkipped(text[0]) ==>
              Stripped(text) != "" && Stripped(text)[0] == text[0] && Stripped(text)[1..] == Stripped(text[1..])
  {
  }

  lemma SkippedIsLegal(c: char)
    ensures IsSkipped(c) ==> IsLegal(c)
  {
  }

  /** The values of the letters of an encoding. */
  function EncodedSextets(bytes: string): (r: seq<Six>)
    requires IsBytes(bytes)
  {
    if |bytes| == 0 then []
    else
      var a := bytes[0] as int;
      if |bytes| == 1 then [a / 4, a % 4 * 16]
      else
        var b := bytes[1] as int;
        if |bytes| == 2 then [a / 4, a % 4 * 16 + b / 16, b % 16 * 4]
        else
          var c := bytes[2] as int;
          [a / 4, a % 4 * 16 + b / 16, b % 16 * 4 + c / 64, c % 64] + EncodedSextets(bytes[3..])
  }

  lemma PackLetter(sextets: seq<Six>, pending: nat, bits: nat)
    requires bits in {0, 2, 4, 6} && pending < Weight(bits) && sextets != []
    ensures bits == 0 ==> Pack(sextets, pending, bits) == Pack(sextets[1..], sextets[0], 6)
    ensures bits > 0 ==>
              var value := 64 * pending + sextets[0];
              Pack(sextets, pending, bits) ==
              [ByteOf(value / Weight(bits - 2))] + Pack(sextets[1..], value % Weight(bits - 2), bits - 2)
  {
  }

  lemma FirstByte(a: nat, b: nat)
    requires a < 256 && b < 256
    ensures (64 * (a / 4) + (a % 4 * 16 + b / 16)) / 16 == a
    ensures (64 * (a / 4) + (a % 4 * 16 + b / 16)) % 16 == b / 16
  {
  }

  lemma SecondByte(b: nat, c: nat)
    requires b < 256 && c < 256
    ensures (64 * (b / 16) + (b % 16 * 4 + c / 64)) / 4 == b
    ensures (64 * (b / 16) + (b % 16 * 4 + c / 64)) % 4 == c / 64
  {
  }

  lemma ThirdByte(c: nat)
    requires c < 256
    ensures 64 * (c / 64) + c % 64 == c
  {
  }

  lemma ByteOfCode(c: char)
    requires c as int < 256
    ensures ByteOf(c as int) == c
  {
  }

  lemma PackNothing(pending: nat, bits: nat)
    requires bits in {0, 2, 4, 6} && pending < Weight(bits)
    ensures Pack([], pending, bits) == ""
  {
  }

  /** Two letters complete one byte, the third another, the fourth a third one. */
  lemma PackTwo(s0: Six, s1: Six, rest: seq<Six>)
    ensures Pack([s0, s1] + rest, 0, 0) ==
            [ByteOf((64 * s0 + s1) / 16)] + Pack(rest, (64 * s0 + s1) % 16, 4)
  {
    var all := [s0, s1] + rest;
    assert all[1..][1..] == rest;
    hide Pack, ByteOf;
    PackLetter(all, 0, 0);
    PackLetter(all[1..], s0, 6);
  }

  lemma PackThird(pending: nat, s2: Six, rest: seq<Six>)
    requires pending < 16
    ensures Pack([s2] + rest, pending, 4) ==
            [ByteOf((64 * pending + s2) / 4)] + Pack(rest, (64 * pending + s2) % 4, 2)
  {
    assert ([s2] + rest)[1..] == rest;
    hide Pack, ByteOf;
    PackLetter([s2] + rest, pending, 4);
  }

  lemma PackFourth(pending: nat, s3: Six, rest: seq<Six>)
    requires pending < 4
    ensures Pack([s3] + rest, pending, 2) == [ByteOf(64 * pending + s3)] + Pack(rest, 0, 0)
  {
    assert ([s3] + rest)[1..] == rest;
    hide Pack, ByteOf;
    PackLetter([s3] + rest, pending, 2);
  }

  lemma OneByte(a: char)
    requires a as int < 256
    ensures Pack(EncodedSextets([a]), 0, 0) == [a]
  {
    var n := a as int;
    FirstByte(n, 0);
    ByteOfCode(a);
    PackNothing(0, 4);
    assert EncodedSextets([a]) == [n / 4, n % 4 * 16] + [];
    hide Pack, ByteOf, EncodedSextets;
    PackTwo(n / 4, n % 4 * 16, []);
  }

  lemma TwoBytes(a: char, b: char)
    requires a as int < 256 && b as int < 256
    ensures Pack(EncodedSextets([a, b]), 0, 0) == [a, b]
  {
    var n, m := a as int, b as int;
    FirstByte(n, m);
    SecondByte(m, 0);
    ByteOfCode(a);
    ByteOfCode(b);
    PackNothing(0, 2);
    var s0, s1, s2 := n / 4, n % 4 * 16 + m / 16, m % 16 * 4;
    assert EncodedSextets([a, b]) == [s0, s1] + ([s2] + []);
    hide Pack, ByteOf, EncodedSextets;
    PackTwo(s0, s1, [s2] + []);
    PackThird(m / 16, s2, []);
  }

  lemma ThreeBytes(a: char, b: char, c: char, rest: seq<Six>)
    requires a as int < 256 && b as int < 256 && c as int < 256
    ensures var n, m, k := a as int, b as int, c as int;
            Pack([n / 4, n % 4 * 16 + m / 16, m % 16 * 4 + k / 64, k % 64] + rest, 0, 0)
            == [a, b, c] + Pack(rest, 0, 0)
  {
    var n, m, k := a as int, b as int, c as int;
    FirstByte(n, m);
    SecondByte(m, k);
    ThirdByte(k);
    ByteOfCode(a);
    ByteOfCode(b);
    ByteOfCode(c);
    hide Pack, ByteOf;
    FourPacked(n / 4, n % 4 * 16 + m / 16, m % 16 * 4 + k / 64, k % 64, a, b, c, m / 16, k / 64, rest);
  }

  /** Four letters, given the bytes they hold and what is pending in between. */
  lemma FourPacked(s0: Six, s1: Six, s2: Six, s3: Six, a: char, b: char, c: char, p: nat, q: nat, rest: seq<Six>)
    requires a == ByteOf((64 * s0 + s1) / 16) && p == (64 * s0 + s1) % 16
    requires p < 16 && b == ByteOf((64 * p + s2) / 4) && q == (64 * p + s2) % 4
    requires q < 4 && c == ByteOf(64 * q + s3)
    ensures Pack([s0, s1, s2, s3] + rest, 0, 0) == [a, b, c] + Pack(rest, 0, 0)
  {
    hide Pack, ByteOf;
    FourApart(s0, s1, s2, s3, rest);
    PackTwo(s0, s1, [s2] + ([s3] + rest));
    PackThird(p, s2, [s3] + rest);
    PackFourth(q, s3, rest);
    ThreeTogether(a, b, c, Pack(rest, 0, 0));
  }

  lemma FourApart<T>(a: T, b: T, c: T, d: T, rest: seq<T>)
    ensures [a, b, c, d] + rest == [a, b] + ([c] + ([d] + rest))
  {
  }

  lemma ThreeTogether<T>(a: T, b: T, c: T, rest: seq<T>)
    ensures [a] + ([b] + ([c] + rest)) == [a, b, c] + rest
  {
  }

  /** Packing the letters of an encoding gives the bytes back. */
  lemma {:induction false} PackOfEncoded(bytes: string)
    requires IsBytes(bytes)
    ensures Pack(EncodedSextets(bytes), 0, 0) == bytes
  {
    hide Pack, EncodedSextets;
    if |bytes| == 0 {
      PackNothing(0, 0);
      NoSextets();
    } else if |bytes| == 1 {
      OneByte(bytes[0]);
      assert bytes == [bytes[0]];
    } else if |bytes| == 2 {
      TwoBytes(bytes[0], bytes[1]);
      assert bytes == [bytes[0], bytes[1]];
    } else {
      PackOfEncoded(bytes[3..]);
      ThreeBytes(bytes[0], bytes[1], bytes[2], EncodedSextets(bytes[3..]));
      SextetsApart(bytes);
      assert bytes == [bytes[0], bytes[1], bytes[2]] + bytes[3..];
    }
  }

  lemma NoSextets()
    ensures EncodedSextets("") == []
  {
  }

  lemma SextetsApart(bytes: string)
    requires IsBytes(bytes) && |bytes| >= 3
    ensures var n, m, k := bytes[0] as int, bytes[1] as int, bytes[2] as int;
            EncodedSextets(bytes)
            == [n / 4, n % 4 * 16 + m / 16, m % 16 * 4 + k / 64, k % 64] + EncodedSextets(bytes[3..])
  {
  }

  lemma ConsLetter(n: Six, rest: string)
    requires AllLegal(rest)
    ensures AllLegal([Letter(n)] + rest) && Significant([Letter(n)] + rest) == [n] + Significant(rest)
  {
    LetterSextet(n);
    hide Letter, Sextet, IsSkipped;
    var text := [Letter(n)] + rest;
    assert text[1..] == rest;
    LegalHead(text);
  }

  lemma PaddingIsSkipped()
    ensures AllLegal("=") && Significant("=") == []
    ensures AllLegal("==") && Significant("==") == []
  {
    assert "=="[1..] == "=";
  }

  lemma TwoLetters(s0: Six, s1: Six, tail: string)
    requires AllLegal(tail)
    ensures AllLegal([Letter(s0), Letter(s1)] + tail)
    ensures Significant([Letter(s0), Letter(s1)] + tail) == [s0, s1] + Significant(tail)
  {
    hide Letter, AllLegal, Significant;
    ConsLetter(s1, tail);
    ConsLetter(s0, [Letter(s1)] + tail);
    assert [Letter(s0)] + ([Letter(s1)] + tail) == [Letter(s0), Letter(s1)] + tail;
    assert [s0] + ([s1] + Significant(tail)) == [s0, s1] + Significant(tail);
  }

  /** The letters of an encoding stand for its values; the padding is skipped. */
  lemma {:induction false} EncodedLetters(bytes: string)
    requires IsBytes(bytes)
    ensures AllLegal(Encode(bytes)) && Significant(Encode(bytes)) == EncodedSextets(bytes)
  {
    if |bytes| > 0 {
      PaddingIsSkipped();
      var a := bytes[0] as int;
      if |bytes| == 1 {
        assert Encode(bytes) == [Letter(a / 4), Letter(a % 4 * 16)] + "==";
        hide Letter, Encode, AllLegal, Significant;
        TwoLetters(a / 4, a % 4 * 16, "==");
      } else {
        var b := bytes[1] as int;
        var s1 := a % 4 * 16 + b / 16;
        if |bytes| == 2 {
          assert Encode(bytes) == [Letter(a / 4), Letter(s1)] + ([Letter(b % 16 * 4)] + "=");
          hide Letter, Encode, AllLegal, Significant;
          ConsLetter(b % 16 * 4, "=");
          TwoLetters(a / 4, s1, [Letter(b % 16 * 4)] + "=");
        } else {
          var c := bytes[2] as int;
          EncodedLetters(bytes[3..]);
          hide Letter, AllLegal, Significant;
          FourLetters(a / 4, s1, b % 16 * 4 + c / 64, c % 64, Encode(bytes[3..]));
        }
      }
    }
  }

  lemma FourLetters(s0: Six, s1: Six, s2: Six, s3: Six, rest: string)
    requires AllLegal(rest)
    ensures AllLegal([Letter(s0), Letter(s1), Letter(s2), Letter(s3)] + rest)
    ensures Significant([Letter(s0), Letter(s1), Letter(s2), Letter(s3)] + rest) == [s0, s1, s2, s3] + Significant(rest)
  {
    hide Letter, AllLegal, Significant;
    TwoLetters(s2, s3, rest);
    TwoLetters(s0, s1, [Letter(s2), Letter(s3)] + rest);
    TwoAndTwo(Letter(s0), Letter(s1), Letter(s2), Letter(s3), rest);
    TwoAndTwo<Six>(s0, s1, s2, s3, Significant(rest));
  }

  lemma TwoAndTwo<T>(a: T, b: T, c: T, d: T, rest: seq<T>)
    ensures [a, b, c, d] + rest == [a, b] + ([c, d] + rest)
  {
  }

  /**
   Decoding inverts the encoding of RFC 4648 whatever whitespace and '=' the
   text has been interspersed with.
   */
  lemma DecodeOfEncode(bytes: string, text: string)
    requires IsBytes(bytes) && Stripped(text) == Stripped(Encode(bytes))
    ensures AllLegal(text) && Decoded(text) == bytes
  {
    EncodedLetters(bytes);
    SignificantOfStripped(text);
    SignificantOfStripped(Encode(bytes));
    PackOfEncoded(bytes);
  }

  /** After k significant characters floor(6k/8) bytes have been written. */
  lemma {:induction false} PackLength(sextets: seq<Six>, pending: nat, bits: nat)
    requires bits in {0, 2, 4, 6} && pending < Weight(bits)
    ensures |Pack(sextets, pending, bits)| == (6 * |sextets| + bits) / 8
  {
    if sextets != [] {
      hide ByteOf;
      PackLetter(sextets, pending, bits);
      if bits == 0 {
        PackLength(sextets[1..], sextets[0], 6);
      } else {
        PackLength(sextets[1..], (64 * pending + sextets[0]) % Weight(bits - 2), bits - 2);
      }
    }
  }

  // ----- The code ---------------------------------------------------------------------

  const UINT_MODULUS: nat := 0x1_0000_0000

  /** The size the output is prepared with: four thirds of the input, rounded up. */
  function Needed(size: nat): (r: nat)
    ensures 4 * size <= 3 * r < 4 * size + 3
  {
    (4 * size + 2) / 3
  }

  /** `(accumulator << 6) | sextet` in 32 bits. */
  function ShiftIn(accumulator: nat, sextet: Six): (r: nat)
    ensures r < UINT_MODULUS
  {
    var shifted := accumulator * 64 % UINT_MODULUS;
    ShiftedIsMultiple(accumulator);
    Bits.OrSextet(shifted / 64, sextet);
    Bits.Or(shifted, sextet)
  }

  lemma ShiftedIsMultiple(accumulator: nat)
    ensures accumulator * 64 % UINT_MODULUS == 64 * (accumulator * 64 % UINT_MODULUS / 64)
    ensures accumulator * 64 % UINT_MODULUS <= UINT_MODULUS - 64
  {
  }

  /** `(accumulator >> bits) & 0xff`. */
  function Extract(accumulator: nat, bits: nat): char
    requires bits in {0, 2, 4, 6}
  {
    ByteOf(accumulator / Weight(bits))
  }

  lemma ShiftInValue(accumulator: nat, sextet: Six)
    ensures ShiftIn(accumulator, sextet) == accumulator * 64 % UINT_MODULUS + sextet
  {
    var shifted := accumulator * 64 % UINT_MODULUS;
    ShiftedIsMultiple(accumulator);
    Bits.OrSextet(shifted / 64, sextet);
  }

  lemma ModOfMod(n: nat, w: nat)
    requires w in {64, 256, 1024, 4096}
    ensures n % UINT_MODULUS % w == n % w
  {
    var q, r := n / UINT_MODULUS, n % UINT_MODULUS;
    if w == 64 {
      Bits.DivModUnique(n, w, 0x400_0000 * q + r / w, r % w);
    } else if w == 256 {
      Bits.DivModUnique(n, w, 0x100_0000 * q + r / w, r % w);
    } else if w == 1024 {
      Bits.DivModUnique(n, w, 0x40_0000 * q + r / w, r % w);
    } else {
      Bits.DivModUnique(n, w, 0x10_0000 * q + r / w, r % w);
    }
  }

  lemma ScaledMod(n: nat, bits: nat)
    requires bits in {0, 2, 4, 6}
    ensures n * 64 % (64 * Weight(bits)) == 64 * (n % Weight(bits))
  {
    Bits.DivModUnique(n * 64, 64 * Weight(bits), n / Weight(bits), 64 * (n % Weight(bits)));
  }

  lemma AddBelow(n: nat, sextet: Six, bits: nat)
    requires bits in {0, 2, 4, 6} && n % 64 == 0
    ensures (n + sextet) % (64 * Weight(bits)) == n % (64 * Weight(bits)) + sextet
  {
    var m := 64 * Weight(bits);
    MultipleBelow(n, Weight(bits));
    Bits.DivModUnique(n + sextet, m, n / m, n % m + sextet);
  }

  /** A multiple of 64 is well below the next multiple. */
  lemma MultipleBelow(n: nat, w: nat)
    requires w in {1, 4, 16, 64} && n % 64 == 0
    ensures n % (64 * w) <= 64 * w - 64
  {
    var k := n / 64;
    if w == 1 {
      Bits.DivModUnique(n, 64, k, 0);
    } else if w == 4 {
      Bits.DivModUnique(n, 256, k / 4, 64 * (k % 4));
    } else if w == 16 {
      Bits.DivModUnique(n, 1024, k / 16, 64 * (k % 16));
    } else {
      Bits.DivModUnique(n, 4096, k / 64, 64 * (k % 64));
    }
  }

  /** The low bits of the wrapping accumulator are the pending bits and the new ones. */
  lemma LowBits(accumulator: nat, sextet: Six, bits: nat)
    requires bits in {0, 2, 4, 6}
    ensures ShiftIn(accumulator, sextet) % (64 * Weight(bits)) == 64 * (accumulator % Weight(bits)) + sextet
  {
    var n, m := accumulator * 64, 64 * Weight(bits);
    var shifted := n % UINT_MODULUS;
    ShiftInValue(accumulator, sextet);
    ShiftedIsMultiple(accumulator);
    assert shifted % 64 == 0;
    hide ShiftIn;
    ModOfMod(n, m);
    ScaledMod(accumulator, bits);
    AddBelow(shifted, sextet, bits);
    hide Weight;
  }

  /** The byte taken out is the value of the eight oldest pending bits. */
  lemma HighByte(accumulator: nat, value: nat, bits: nat)
    requires bits in {0, 2, 4} && accumulator % (256 * Weight(bits)) == value
    ensures Extract(accumulator, bits) == ByteOf(value / Weight(bits))
    ensures accumulator % Weight(bits) == value % Weight(bits)
  {
    HighOf(accumulator, value, Weight(bits));
    assert value / Weight(bits) < 256 by {
      assert value < 256 * Weight(bits);
    }
  }

  lemma HighOf(accumulator: nat, value: nat, w: nat)
    requires w in {1, 4, 16} && accumulator % (256 * w) == value
    ensures accumulator / w % 256 == value / w && accumulator % w == value % w
  {
    var q := accumulator / (256 * w);
    if w == 1 {
      Bits.DivModUnique(accumulator, 1, 256 * q + value, 0);
    } else if w == 4 {
      Bits.DivModUnique(accumulator, 4, 256 * q + value / 4, value % 4);
      Bits.DivModUnique(256 * q + value / 4, 256, q, value / 4);
    } else {
      Bits.DivModUnique(accumulator, 16, 256 * q + value / 16, value % 16);
      Bits.DivModUnique(256 * q + value / 16, 256, q, value / 16);
    }
  }

  /** What has been written and what the rest will write make up the decoded text. */
  ghost predicate Decoding(input: string, i: nat, written: string, accumulator: nat, bits: nat)
    requires bits in {0, 2, 4, 6}
  {
    i <= |input| &&
    (AllLegal(input) ==>
      AllLegal(input[i..]) &&
      written + Pack(Significant(input[i..]), accumulator % Weight(bits), bits) == Decoded(input))
  }

  lemma DecodingStarts(input: string)
    ensures Decoding(input, 0, "", 0, 0)
  {
    assert input[0..] == input;
    if AllLegal(input) {
      assert "" + Decoded(input) == Decoded(input);
    }
  }

  lemma DecodingSkips(input: string, i: nat, written: string, accumulator: nat, bits: nat)
    requires bits in {0, 2, 4, 6} && i < |input| && Decoding(input, i, written, accumulator, bits)
    requires IsSkipped(input[i])
    ensures Decoding(input, i + 1, written, accumulator, bits)
  {
    assert input[i..][0] == input[i] && input[i..][1..] == input[i + 1..];
    hide IsSkipped, Pack, IsLegal;
  }

  lemma DecodingReads(input: string, i: nat, written: string, accumulator: nat, bits: nat)
    requires bits in {0, 2, 4, 6} && i < |input| && Decoding(input, i, written, accumulator, bits)
    requires !IsSkipped(input[i]) && Sextet(input[i]) < 64
    ensures var next := ShiftIn(accumulator, Sextet(input[i]));
            if bits == 0 then Decoding(input, i + 1, written, next, 6)
            else Decoding(input, i + 1, written + [Extract(next, bits - 2)], next, bits - 2)
  {
    var s := Sextet(input[i]);
    var next := ShiftIn(accumulator, s);
    assert input[i..][0] == input[i] && input[i..][1..] == input[i + 1..];
    LowBits(accumulator, s, bits);
    if bits > 0 {
      HighByte(next, 64 * (accumulator % Weight(bits)) + s, bits - 2);
    }
    if AllLegal(input) {
      var rest := Significant(input[i + 1..]);
      assert Significant(input[i..]) == [s] + rest && ([s] + rest)[1..] == rest;
      hide ShiftIn, Extract, Pack, Significant, IsSkipped, Sextet, ByteOf, IsLegal;
      PackLetter([s] + rest, accumulator % Weight(bits), bits);
      if bits > 0 {
        var value := 64 * (accumulator % Weight(bits)) + s;
        Shift(written, Extract(next, bits - 2), Pack(rest, value % Weight(bits - 2), bits - 2));
      }
    }
  }

  lemma Shift(a: string, c: char, b: string)
    ensures a + ([c] + b) == a + [c] + b
  {
  }

  lemma DecodingEnds(input: string, written: string, accumulator: nat, bits: nat)
    requires bits in {0, 2, 4, 6} && Decoding(input, |input|, written, accumulator, bits) && AllLegal(input)
    ensures written == Decoded(input)
  {
    PackNothing(accumulator % Weight(bits), bits);
    assert Significant(input[|input|..]) == [];
    assert written + "" == written;
  }

  /**
   Where the loop is: `now` is what the output holds, the bytes written in front
   of what it held `before`.
   */
  ghost predicate Stage(input: string, before: string, now: string, i: nat, letters: nat, accumulator: nat, bits: nat,
                        written: string)
  {
    && i <= |input| && bits in {0, 2, 4, 6} && accumulator < UINT_MODULUS
    && Decoding(input, i, written, accumulator, bits)
    && letters <= i && 8 * |written| + bits == 6 * letters
    && |before| >= Needed(|input|) && |written| <= |before| && now == written + before[|written|..]
    && forall j | 0 <= j < i :: IsLegal(input[j])
  }

  lemma StageStarts(input: string, before: string)
    requires |before| >= Needed(|input|)
    ensures Stage(input, before, before, 0, 0, 0, 0, "")
  {
    DecodingStarts(input);
    hide Decoding;
    assert before == "" + before[0..];
  }

  lemma StageSkips(input: string, before: string, now: string, i: nat, letters: nat, accumulator: nat, bits: nat,
                   written: string)
    requires Stage(input, before, now, i, letters, accumulator, bits, written) && i < |input| && IsSkipped(input[i])
    ensures Stage(input, before, now, i + 1, letters, accumulator, bits, written)
  {
    DecodingSkips(input, i, written, accumulator, bits);
    hide Decoding, IsSkipped;
  }

  /** One turn at a letter; with eight bits there is room for a byte, and it is written. */
  lemma StageReads(input: string, before: string, now: string, i: nat, letters: nat, accumulator: nat, bits: nat,
                   written: string)
    requires Stage(input, before, now, i, letters, accumulator, bits, written) && i < |input|
    requires !IsSkipped(input[i]) && Sextet(input[i]) < 64
    ensures var next := ShiftIn(accumulator, Sextet(input[i]));
            if bits == 0 then Stage(input, before, now, i + 1, letters + 1, next, 6, written)
            else
              var byte := Extract(next, bits - 2);
              |written| < |now|
              && Stage(input, before, now[|written| := byte], i + 1, letters + 1, next, bits - 2, written + [byte])
  {
    DecodingReads(input, i, written, accumulator, bits);
    hide Decoding, IsSkipped, Sextet, ShiftIn, Extract;
    if bits > 0 {
      Overwritten(before, written, Extract(ShiftIn(accumulator, Sextet(input[i])), bits - 2));
    }
  }

  lemma Overwritten(before: string, written: string, byte: char)
    requires |written| < |before|
    ensures (written + before[|written|..])[|written| := byte] == written + [byte] + before[|written| + 1..]
  {
  }

  lemma StageStops(input: string, i: nat)
    requires i < |input| && !IsSkipped(input[i]) && Sextet(input[i]) > 63
    ensures !AllLegal(input)
  {
    hide Sextet, IsSkipped;
    assert !IsLegal(input[i]);
  }

  lemma StageEnds(input: string, before: string, now: string, letters: nat, accumulator: nat, bits: nat,
                  written: string)
    requires Stage(input, before, now, |input|, letters, accumulator, bits, written)
    ensures AllLegal(input) && written == Decoded(input) && |written| <= Needed(|input|)
  {
    hide IsLegal;
    DecodingEnds(input, written, accumulator, bits);
  }

  /** What the output holds while the loop runs. */
  lemma StageHolds(input: string, before: string, now: string, i: nat, letters: nat, accumulator: nat, bits: nat,
                   written: string)
    requires Stage(input, before, now, i, letters, accumulator, bits, written)
    ensures |written| <= |before| == |now| && now[..|written|] == written
    ensures forall j | |written| <= j < |now| :: now[j] == before[j]
  {
    hide Decoding, IsLegal;
  }

  /**
   `decode`: writes the bytes into the prepared output and leaves what follows
   them alone, or throws at the first character outside the alphabet.
   */
  method Decode(input: string, out: array<char>) returns (r: Result<()>, ghost written: string)
    requires out.Length >= Needed(|input|)
    modifies out
    ensures r == if AllLegal(input) then Ok(()) else Throws(InvalidArgument)
    ensures r.Ok? ==> written == Decoded(input) && |written| <= Needed(|input|) && out[..|written|] == written
    ensures forall j | |written| <= j < out.Length :: out[j] == old(out[j])
    ensures |written| <= out.Length
  {
    hide Stage, Decoded, AllLegal, IsLegal, Sextet, ShiftIn, Extract;
    var bitsCollected := 0;
    var accumulator: nat := 0;
    var outIter := 0;
    written := "";
    ghost var letters := 0;
    ghost var before := out[..];
    StageStarts(input, before);
    var i := 0;
    while i < |input|
      invariant i <= |input| && bitsCollected in {0, 2, 4, 6} && outIter == |written|
      invariant Stage(input, before, out[..], i, letters, accumulator, bitsCollected, written)
    {
      ghost var now := out[..];
      StageHolds(input, before, now, i, letters, accumulator, bitsCollected, written);
      var c := input[i];
      if IsSpace(c) || c == '=' {
        StageSkips(input, before, now, i, letters, accumulator, bitsCollected, written);
        i := i + 1;
        continue;
      }
      if c as int > 127 || Sextet(c) > 63 {
        StageStops(input, i);
        return Throws(InvalidArgument), written;
      }
      StageReads(input, before, now, i, letters, accumulator, bitsCollected, written);
      accumulator := ShiftIn(accumulator, Sextet(c));
      bitsCollected := bitsCollected + 6;
      letters, i := letters + 1, i + 1;
      if bitsCollected >= 8 {
        bitsCollected := bitsCollected - 8;
        out[outIter] := Extract(accumulator, bitsCollected);
        assert out[..] == now[outIter := Extract(accumulator, bitsCollected)];
        written := written + [Extract(accumulator, bitsCollected)];
        outIter := outIter + 1;
      }
    }
    StageHolds(input, before, out[..], i, letters, accumulator, bitsCollected, written);
    StageEnds(input, before, out[..], letters, accumulator, bitsCollected, written);
    return Ok(()), written;
  }
}
