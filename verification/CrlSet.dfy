/**
 The CRLSet parser (lib/malloy/client/3rdparty/boost/certify/impl/crlset_parser.ipp):
 a header, then for each issuer a hash of 32 bytes, a count and that many serials.
 */
module CrlSets {
  import opened Wrappers

  type Byte = b: nat | b < 256

  datatype CrlError = HeaderLengthTruncated | HeaderTruncated | SerialTruncated

  const HASH_SIZE: nat := 32
  const COUNT_SIZE: nat := 4

  datatype CrlSet = CrlSet(parentSpkiHash: seq<Byte>, serials: seq<seq<Byte>>)

  /** The sets read so far, and the error that ended the parse if there was one. */
  datatype Outcome = Outcome(sets: seq<CrlSet>, error: Option<CrlError>)

  function Little16(b: seq<Byte>): nat
    requires |b| >= 2
  {
    b[0] as int + 0x100 * b[1] as int
  }

  function Little32(b: seq<Byte>): nat
    requires |b| >= 4
  {
    b[0] as int + 0x100 * b[1] as int + 0x1_0000 * b[2] as int + 0x100_0000 * b[3] as int
  }

  // ----- The specification ------------------------------------------------------------

  /** The serials of one set: those read, what is left, and whether one was cut off. */
  datatype Serials = Serials(read: seq<seq<Byte>>, rest: seq<Byte>, truncated: bool)

  function ReadSerials(b: seq<Byte>, count: nat): (r: Serials)
    ensures |r.rest| <= |b|
    decreases count
  {
    if count == 0 || b == [] then Serials([], b, false)
    else if |b| - 1 < b[0] then Serials([], b[1..], true)
    else
      var tail := ReadSerials(b[1 + b[0]..], count - 1);
      Serials([b[1..1 + b[0]]] + tail.read, tail.rest, tail.truncated)
  }

  function ReadSets(b: seq<Byte>): Outcome
    decreases |b|
  {
    if |b| <= HASH_SIZE + COUNT_SIZE then Outcome([], None)
    else
      var serials := ReadSerials(b[HASH_SIZE + COUNT_SIZE..], Little32(b[HASH_SIZE..]));
      var first := CrlSet(b[..HASH_SIZE], serials.read);
      if serials.truncated then Outcome([first], Some(SerialTruncated))
      else
        var tail := ReadSets(serials.rest);
        Outcome([first] + tail.sets, tail.error)
  }

  function ParseSpec(b: seq<Byte>): Outcome {
    if |b| < 2 then Outcome([], Some(HeaderLengthTruncated))
    else if |b| - 2 < Little16(b) then Outcome([], Some(HeaderTruncated))
    else ReadSets(b[2 + Little16(b)..])
  }

  // ----- The renderer ------------------------------------------------------------------

  predicate SmallSerials(serials: seq<seq<Byte>>) {
    forall i | 0 <= i < |serials| :: |serials[i]| < 256
  }

  predicate IsSet(s: CrlSet) {
    && |s.parentSpkiHash| == HASH_SIZE
    && |s.serials| < 0x1_0000_0000
    && SmallSerials(s.serials)
  }

  function Render16(n: nat): seq<Byte>
    requires n < 0x1_0000
  {
    [n % 0x100, n / 0x100]
  }

  function Render32(n: nat): seq<Byte>
    requires n < 0x1_0000_0000
  {
    [n % 0x100, n / 0x100 % 0x100, n / 0x1_0000 % 0x100, n / 0x100_0000]
  }

  function RenderSerials(serials: seq<seq<Byte>>): seq<Byte>
    requires SmallSerials(serials)
  {
    if serials == [] then [] else [|serials[0]|] + (serials[0] + RenderSerials(serials[1..]))
  }

  /** A set behind a count that need not be the number of its serials. */
  function RenderCounted(s: CrlSet, count: nat): seq<Byte>
    requires SmallSerials(s.serials) && count < 0x1_0000_0000
  {
    s.parentSpkiHash + (Render32(count) + RenderSerials(s.serials))
  }

  function RenderSet(s: CrlSet): seq<Byte>
    requires IsSet(s)
  {
    RenderCounted(s, |s.serials|)
  }

  function RenderSets(sets: seq<CrlSet>): seq<Byte>
    requires forall i | 0 <= i < |sets| :: IsSet(sets[i])
  {
    if sets == [] then []
    else RenderSet(sets[0]) + RenderSets(sets[1..])
  }

  function Render(header: seq<Byte>, sets: seq<CrlSet>): seq<Byte>
    requires |header| < 0x1_0000 && forall i | 0 <= i < |sets| :: IsSet(sets[i])
  {
    Render16(|header|) + header + RenderSets(sets)
  }

  // ----- Parsing undoes rendering ----------------------------------------------------------

  lemma Read16(n: nat, rest: seq<Byte>)
    requires n < 0x1_0000
    ensures |Render16(n)| == 2 && Little16(Render16(n) + rest) == n
  {
    var b := Render16(n) + rest;
    assert b[0] == n % 0x100 && b[1] == n / 0x100;
  }

  lemma Quotients(n: nat)
    ensures n / 0x1_0000 == n / 0x100 / 0x100
    ensures n / 0x100_0000 == n / 0x1_0000 / 0x100
  {
  }

  lemma FourBytes(n: nat)
    ensures n == n % 0x100 + 0x100 * (n / 0x100 % 0x100) + 0x1_0000 * (n / 0x1_0000 % 0x100)
                 + 0x100_0000 * (n / 0x100_0000)
  {
    Quotients(n);
    var m := n / 0x100;
    var k := m / 0x100;
    assert n == 0x100 * m + n % 0x100;
    assert m == 0x100 * k + m % 0x100;
    assert k == 0x100 * (k / 0x100) + k % 0x100;
  }

  lemma Read32(n: nat, rest: seq<Byte>)
    requires n < 0x1_0000_0000
    ensures |Render32(n)| == COUNT_SIZE && Little32(Render32(n) + rest) == n
  {
    var number := Render32(n);
    var b := number + rest;
    assert b[0] == number[0] && b[1] == number[1] && b[2] == number[2] && b[3] == number[3];
    FourBytes(n);
  }

  lemma Reassociate(a: seq<Byte>, b: seq<Byte>, c: seq<Byte>)
    ensures a + (b + c) == a + b + c
  {
  }

  /** What the first turn of the outer loop reads. */
  lemma FirstSet(b: seq<Byte>)
    requires |b| > HASH_SIZE + COUNT_SIZE
    ensures var serials := ReadSerials(b[HASH_SIZE + COUNT_SIZE..], Little32(b[HASH_SIZE..]));
            var entry := CrlSet(b[..HASH_SIZE], serials.read);
            && |serials.rest| < |b|
            && (serials.truncated ==> ReadSets(b).sets == [entry] && ReadSets(b).error == Some(SerialTruncated))
            && (!serials.truncated ==> ReadSets(b).sets == [entry] + ReadSets(serials.rest).sets)
            && (!serials.truncated ==> ReadSets(b).error == ReadSets(serials.rest).error)
  {
    hide ReadSerials, Little32;
  }

  lemma FirstSetNone(b: seq<Byte>)
    requires |b| <= HASH_SIZE + COUNT_SIZE
    ensures ReadSets(b) == Outcome([], None)
  {
  }

  /** A serial that is there in full is read, whatever follows it. */
  lemma FirstSerial(b: seq<Byte>, serial: seq<Byte>, tail: seq<Byte>, count: nat)
    requires |serial| < 256 && count > 0 && b == [|serial|] + (serial + tail)
    ensures var r, t := ReadSerials(b, count), ReadSerials(tail, count - 1);
            r.read == [serial] + t.read && r.rest == t.rest && r.truncated == t.truncated
  {
    var n := |serial|;
    assert b[0] == n;
    assert b[1..1 + n] == serial;
    assert b[1 + n..] == tail;
  }

  lemma SerialsApart(serials: seq<seq<Byte>>, rest: seq<Byte>)
    requires serials != [] && SmallSerials(serials)
    ensures SmallSerials(serials[1..])
    ensures RenderSerials(serials) + rest == [|serials[0]|] + (serials[0] + (RenderSerials(serials[1..]) + rest))
  {
    Reassociate([|serials[0]|], serials[0] + RenderSerials(serials[1..]), rest);
    Reassociate(serials[0], RenderSerials(serials[1..]), rest);
  }

  lemma {:induction false} SerialsReadBack(serials: seq<seq<Byte>>, rest: seq<Byte>)
    requires SmallSerials(serials)
    ensures ReadSerials(RenderSerials(serials) + rest, |serials|).read == serials
    ensures ReadSerials(RenderSerials(serials) + rest, |serials|).rest == rest
    ensures !ReadSerials(RenderSerials(serials) + rest, |serials|).truncated
  {
    if serials == [] {
      assert [] + rest == rest;
    } else {
      SerialsApart(serials, rest);
      SerialsReadBack(serials[1..], rest);
      hide ReadSerials, RenderSerials;
      FirstSerial(RenderSerials(serials) + rest, serials[0], RenderSerials(serials[1..]) + rest, |serials|);
      assert [serials[0]] + serials[1..] == serials;
    }
  }

  lemma SetParts(s: CrlSet, count: nat, rest: seq<Byte>)
    requires |s.parentSpkiHash| == HASH_SIZE && SmallSerials(s.serials) && count < 0x1_0000_0000
    ensures var b := RenderCounted(s, count) + rest;
            && |b| == HASH_SIZE + COUNT_SIZE + |RenderSerials(s.serials)| + |rest|
            && b[..HASH_SIZE] == s.parentSpkiHash
            && Little32(b[HASH_SIZE..]) == count
            && b[HASH_SIZE + COUNT_SIZE..] == RenderSerials(s.serials) + rest
  {
    var number, serials := Render32(count), RenderSerials(s.serials);
    var b := RenderCounted(s, count) + rest;
    Read32(count, serials + rest);
    hide Render32, RenderSerials;
    assert b[HASH_SIZE..] == number + (serials + rest);
    assert b[HASH_SIZE + COUNT_SIZE..] == serials + rest;
  }

  lemma SerialsNotEmpty(serials: seq<seq<Byte>>)
    requires SmallSerials(serials)
    ensures RenderSerials(serials) == [] <==> serials == []
  {
  }

  /** What a rendering is read back as: a last set without serials is lost. */
  function ReadBack(sets: seq<CrlSet>): seq<CrlSet> {
    if sets != [] && sets[|sets| - 1].serials == [] then sets[..|sets| - 1] else sets
  }

  /** A set is read, whatever follows it, if it or what follows has any byte after the count. */
  lemma SetReadBack(s: CrlSet, rest: seq<Byte>)
    requires IsSet(s) && (s.serials != [] || rest != [])
    ensures ReadSets(RenderSet(s) + rest).sets == [s] + ReadSets(rest).sets
    ensures ReadSets(RenderSet(s) + rest).error == ReadSets(rest).error
  {
    SetParts(s, |s.serials|, rest);
    SerialsReadBack(s.serials, rest);
    SerialsNotEmpty(s.serials);
    FirstSet(RenderSet(s) + rest);
    hide ReadSets, ReadSerials, RenderSerials, RenderCounted, Little32, SmallSerials;
  }

  lemma LoneSetLost(s: CrlSet)
    requires IsSet(s) && s.serials == []
    ensures ReadSets(RenderSet(s) + []) == Outcome([], None)
  {
    SetParts(s, 0, []);
    hide RenderCounted;
    FirstSetNone(RenderSet(s) + []);
  }

  lemma ReadBackApart(sets: seq<CrlSet>)
    requires |sets| > 1 || (|sets| == 1 && sets[0].serials != [])
    ensures ReadBack(sets) == [sets[0]] + ReadBack(sets[1..])
  {
    if |sets| > 1 {
      assert sets[1..][|sets| - 2] == sets[|sets| - 1];
    }
  }

  lemma {:induction false} SetsReadBack(sets: seq<CrlSet>)
    requires forall i | 0 <= i < |sets| :: IsSet(sets[i])
    ensures ReadSets(RenderSets(sets)).sets == ReadBack(sets) && ReadSets(RenderSets(sets)).error == None
  {
    FirstSetNone([]);
    hide ReadSets, IsSet, RenderSet;
    if sets != [] {
      var s, rest := sets[0], RenderSets(sets[1..]);
      SetsReadBack(sets[1..]);
      RenderedSize(sets[1..]);
      if |sets| > 1 || s.serials != [] {
        SetReadBack(s, rest);
        ReadBackApart(sets);
      } else {
        LoneSetLost(s);
      }
    }
  }

  lemma RenderedSize(sets: seq<CrlSet>)
    requires forall i | 0 <= i < |sets| :: IsSet(sets[i])
    ensures sets != [] ==> |RenderSets(sets)| >= HASH_SIZE + COUNT_SIZE
  {
  }

  /**
   Parsing a rendered CRLSet gives no error and all the sets, except a last
   one without serials; so it gives them all exactly when there is no such one.
   */
  lemma ParseOfRender(header: seq<Byte>, sets: seq<CrlSet>)
    requires |header| < 0x1_0000 && forall i | 0 <= i < |sets| :: IsSet(sets[i])
    ensures ParseSpec(Render(header, sets)).error == None
    ensures ParseSpec(Render(header, sets)).sets == ReadBack(sets)
    ensures ParseSpec(Render(header, sets)).sets == sets <==> sets == [] || sets[|sets| - 1].serials != []
  {
    hide ParseSpec, Render16, RenderSets, ReadSets, IsSet, ReadBack;
    HeaderSkipped(header, RenderSets(sets));
    SetsReadBack(sets);
    ReadBackSame(sets);
  }

  lemma HeaderSkipped(header: seq<Byte>, rest: seq<Byte>)
    requires |header| < 0x1_0000
    ensures ParseSpec(Render16(|header|) + header + rest) == ReadSets(rest)
  {
    var b := Render16(|header|) + header + rest;
    Read16(|header|, header + rest);
    hide Render16, ReadSets, Little16;
    assert b == Render16(|header|) + (header + rest);
    assert b[2 + |header|..] == rest;
  }

  lemma ReadBackSame(sets: seq<CrlSet>)
    ensures ReadBack(sets) == sets <==> sets == [] || sets[|sets| - 1].serials != []
  {
  }

  /** A buffer that ends in the length of the header or in the header: the error says which, and nothing is read. */
  lemma HeaderCut(header: seq<Byte>, sets: seq<CrlSet>, n: nat)
    requires |header| < 0x1_0000 && forall i | 0 <= i < |sets| :: IsSet(sets[i])
    requires n < 2 + |header|
    ensures n <= |Render(header, sets)|
    ensures ParseSpec(Render(header, sets)[..n]) ==
            Outcome([], Some(if n < 2 then HeaderLengthTruncated else HeaderTruncated))
  {
    var rest := RenderSets(sets);
    hide RenderSets, IsSet;
    var b := Render(header, sets)[..n];
    Read16(|header|, header + rest);
    assert Render(header, sets) == Render16(|header|) + (header + rest);
    if n >= 2 {
      assert b[0] == Render16(|header|)[0] && b[1] == Render16(|header|)[1];
    }
  }

  /** Whatever the buffer, the errors of the header are exactly these, and otherwise the sets behind it are read. */
  lemma HeaderErrors(b: seq<Byte>)
    ensures ParseSpec(b).error == Some(HeaderLengthTruncated) <==> |b| < 2
    ensures ParseSpec(b).error == Some(HeaderTruncated) <==> |b| >= 2 && |b| < 2 + b[0] as int + 256 * b[1] as int
    ensures |b| >= 2 && |b| >= 2 + b[0] as int + 256 * b[1] as int ==>
              ParseSpec(b) == ReadSets(b[2 + b[0] as int + 256 * b[1] as int..])
  {
    if |b| >= 2 && |b| >= 2 + Little16(b) {
      var counts, left := SetsAccount(b[2 + Little16(b)..]);
    }
  }

  /** A set takes more than 36 bytes, of which the first 32 are its hash. */
  lemma FirstHash(b: seq<Byte>)
    ensures ReadSets(b).sets == [] <==> |b| <= 36
    ensures |b| > 36 ==> ReadSets(b).sets[0].parentSpkiHash == b[..32]
  {
    if |b| > HASH_SIZE + COUNT_SIZE {
      FirstSet(b);
    } else {
      FirstSetNone(b);
    }
  }

  // ----- Every buffer is accounted for ---------------------------------------------------------

  /** `left` is what is left of `b` after reading serials from it. */
  predicate SerialsAccounted(b: seq<Byte>, count: nat, r: Serials, left: seq<Byte>) {
    && SmallSerials(r.read)
    && b == RenderSerials(r.read) + left
    && (r.truncated ==> |r.read| < count && left != [] && |left| - 1 < left[0] && r.rest == left[1..])
    && (!r.truncated ==> left == r.rest && (|r.read| == count || (|r.read| < count && left == [])))
  }

  /** The serials read, each behind its size, and what is left are the buffer. */
  lemma {:induction false} SerialsAccount(b: seq<Byte>, count: nat) returns (left: seq<Byte>)
    ensures SerialsAccounted(b, count, ReadSerials(b, count), left)
    decreases count
  {
    if count == 0 || b == [] || |b| - 1 < b[0] {
      left := b;
      assert b == [] + b;
    } else {
      left := SerialsAccount(b[1 + b[0]..], count - 1);
      hide RenderSerials;
      FirstAccount(b, count, left);
    }
  }

  lemma SerialPrepended(serial: seq<Byte>, serials: seq<seq<Byte>>)
    requires |serial| < 256 && SmallSerials(serials)
    ensures SmallSerials([serial] + serials)
    ensures RenderSerials([serial] + serials) == [|serial|] + (serial + RenderSerials(serials))
  {
    assert ([serial] + serials)[1..] == serials;
  }

  /** The bytes of a buffer around its first serial. */
  lemma FirstApart(b: seq<Byte>, n: nat, serials: seq<Byte>, left: seq<Byte>)
    requires b != [] && b[0] == n < |b| && b[1 + n..] == serials + left
    ensures b == [n] + (b[1..1 + n] + serials) + left
  {
    assert b == [n] + b[1..1 + n] + b[1 + n..];
  }

  lemma FirstAccount(b: seq<Byte>, count: nat, left: seq<Byte>)
    requires count > 0 && b != [] && b[0] < |b|
    requires SerialsAccounted(b[1 + b[0]..], count - 1, ReadSerials(b[1 + b[0]..], count - 1), left)
    ensures SerialsAccounted(b, count, ReadSerials(b, count), left)
  {
    var read := ReadSerials(b[1 + b[0]..], count - 1).read;
    SerialPrepended(b[1..1 + b[0]], read);
    FirstApart(b, b[0], RenderSerials(read), left);
    hide RenderSerials, SmallSerials;
    assert ReadSerials(b, count).read == [b[1..1 + b[0]]] + read;
  }

  /** The counts in front of the sets are the numbers of their serials, except that the last set may be cut short. */
  predicate Counted(sets: seq<CrlSet>, counts: seq<nat>, cut: bool) {
    && |counts| == |sets|
    && (forall i | 0 <= i < |sets| :: counts[i] < 0x1_0000_0000 && SmallSerials(sets[i].serials))
    && (forall i | 0 <= i < |sets| :: |sets[i].serials| <= counts[i])
    && (forall i | 0 <= i < |sets| :: i < |sets| - 1 || !cut ==> |sets[i].serials| == counts[i])
  }

  function RenderAllCounted(sets: seq<CrlSet>, counts: seq<nat>): seq<Byte>
    requires |counts| == |sets|
    requires forall i | 0 <= i < |sets| :: counts[i] < 0x1_0000_0000 && SmallSerials(sets[i].serials)
  {
    if sets == [] then []
    else RenderCounted(sets[0], counts[0]) + RenderAllCounted(sets[1..], counts[1..])
  }

  lemma BytesOf(a: nat, b: nat, c: nat)
    requires a < 0x100 && b < 0x100
    ensures (a + 0x100 * (b + 0x100 * c)) % 0x100 == a
    ensures (a + 0x100 * (b + 0x100 * c)) / 0x100 % 0x100 == b
    ensures (a + 0x100 * (b + 0x100 * c)) / 0x1_0000 == c
  {
    Quotients(a + 0x100 * (b + 0x100 * c));
  }

  lemma NumberWritesBack(b: seq<Byte>)
    requires |b| >= COUNT_SIZE
    ensures Little32(b) < 0x1_0000_0000 && Render32(Little32(b)) == b[..COUNT_SIZE]
  {
    var n, high := Little32(b), b[2] as int + 0x100 * b[3] as int;
    assert n == b[0] as int + 0x100 * (b[1] as int + 0x100 * high);
    BytesOf(b[0], b[1], high);
    Quotients(n);
    assert high % 0x100 == b[2] && high / 0x100 == b[3];
  }

  lemma SetApart(b: seq<Byte>, entry: CrlSet, count: nat, left: seq<Byte>)
    requires |b| >= HASH_SIZE + COUNT_SIZE && entry.parentSpkiHash == b[..HASH_SIZE]
    requires count == Little32(b[HASH_SIZE..]) && SmallSerials(entry.serials)
    requires b[HASH_SIZE + COUNT_SIZE..] == RenderSerials(entry.serials) + left
    ensures count < 0x1_0000_0000 && b == RenderCounted(entry, count) + left
  {
    NumberWritesBack(b[HASH_SIZE..]);
    hide Little32, Render32, RenderSerials;
    assert b == b[..HASH_SIZE] + (b[HASH_SIZE..][..COUNT_SIZE] + b[HASH_SIZE + COUNT_SIZE..]);
  }

  /**
   The sets, rendered with the counts, and what is left over are the buffer. A
   parse without error leaves too little for another set, and cuts the last set
   short only where the buffer ends; one with an error leaves a serial that is
   not there in full.
   */
  predicate SetsAccounted(b: seq<Byte>, read: Outcome, counts: seq<nat>, left: seq<Byte>) {
    && Counted(read.sets, counts, left == [] || read.error.Some?)
    && b == RenderAllCounted(read.sets, counts) + left
    && match read.error
       case None => |left| <= HASH_SIZE + COUNT_SIZE
       case Some(e) => e == SerialTruncated && left != [] && |left| - 1 < left[0]
  }

  /** What a parse read accounts for the whole buffer. */
  lemma {:induction false} SetsAccount(b: seq<Byte>) returns (counts: seq<nat>, left: seq<Byte>)
    ensures SetsAccounted(b, ReadSets(b), counts, left)
    decreases |b|
  {
    if |b| <= HASH_SIZE + COUNT_SIZE {
      FirstSetNone(b);
      hide ReadSets;
      counts := [];
      left := b;
      assert b == [] + b;
    } else {
      FirstSet(b);
      hide *;
      var count := Little32(b[HASH_SIZE..]);
      var serials := ReadSerials(b[HASH_SIZE + COUNT_SIZE..], count);
      left := SerialsAccount(b[HASH_SIZE + COUNT_SIZE..], count);
      if serials.truncated {
        CutAccount(b, count, serials, left);
        counts := [count];
      } else {
        LeftIsRest(b[HASH_SIZE + COUNT_SIZE..], count, serials, left);
        counts, left := SetsAccount(serials.rest);
        MoreAccount(b, count, serials, counts, left);
        counts := [count] + counts;
      }
    }
  }

  lemma LeftIsRest(b: seq<Byte>, count: nat, r: Serials, left: seq<Byte>)
    requires SerialsAccounted(b, count, r, left) && !r.truncated
    ensures SerialsAccounted(b, count, r, r.rest)
  {
  }

  lemma CutAccount(b: seq<Byte>, count: nat, serials: Serials, left: seq<Byte>)
    requires |b| > HASH_SIZE + COUNT_SIZE && count == Little32(b[HASH_SIZE..]) && serials.truncated
    requires SerialsAccounted(b[HASH_SIZE + COUNT_SIZE..], count, serials, left)
    requires ReadSets(b).sets == [CrlSet(b[..HASH_SIZE], serials.read)]
    requires ReadSets(b).error == Some(SerialTruncated)
    ensures SetsAccounted(b, ReadSets(b), [count], left)
  {
    var entry := CrlSet(b[..HASH_SIZE], serials.read);
    hide ReadSets, ReadSerials, RenderSerials, Little32, RenderCounted, Render32, SmallSerials, Counted,
         RenderAllCounted;
    SetApart(b, entry, count, left);
    OneCounted(entry, count);
  }

  lemma OneCounted(entry: CrlSet, count: nat)
    requires count < 0x1_0000_0000 && SmallSerials(entry.serials) && |entry.serials| <= count
    ensures Counted([entry], [count], true)
    ensures RenderAllCounted([entry], [count]) == RenderCounted(entry, count)
  {
    hide RenderCounted, SmallSerials;
    assert [entry][1..] == [] && [count][1..] == [];
    assert RenderAllCounted([], []) == [];
  }

  lemma MoreAccount(b: seq<Byte>, count: nat, serials: Serials, counts: seq<nat>, left: seq<Byte>)
    requires |b| > HASH_SIZE + COUNT_SIZE && count == Little32(b[HASH_SIZE..]) && !serials.truncated
    requires SerialsAccounted(b[HASH_SIZE + COUNT_SIZE..], count, serials, serials.rest)
    requires ReadSets(b).sets == [CrlSet(b[..HASH_SIZE], serials.read)] + ReadSets(serials.rest).sets
    requires ReadSets(b).error == ReadSets(serials.rest).error
    requires SetsAccounted(serials.rest, ReadSets(serials.rest), counts, left)
    ensures SetsAccounted(b, ReadSets(b), [count] + counts, left)
  {
    var entry, read := CrlSet(b[..HASH_SIZE], serials.read), ReadSets(serials.rest);
    SetApart(b, entry, count, serials.rest);
    FirstSetNone([]);
    hide ReadSets, ReadSerials, RenderSerials, Little32, RenderCounted, Render32, SmallSerials, Counted,
         RenderAllCounted;
    NothingLeft(serials.rest, read, counts, left);
    CountedPrepended(entry, count, read.sets, counts, left == [] || read.error.Some?);
    CountedMeans(read.sets, counts, left == [] || read.error.Some?);
    EntryPrepended(entry, count, read.sets, counts);
    Reassociate(RenderCounted(entry, count), RenderAllCounted(read.sets, counts), left);
  }

  lemma CountedMeans(sets: seq<CrlSet>, counts: seq<nat>, cut: bool)
    requires Counted(sets, counts, cut)
    ensures |counts| == |sets|
    ensures forall i | 0 <= i < |sets| :: counts[i] < 0x1_0000_0000 && SmallSerials(sets[i].serials)
  {
    hide SmallSerials;
  }

  lemma NothingLeft(rest: seq<Byte>, read: Outcome, counts: seq<nat>, left: seq<Byte>)
    requires SetsAccounted(rest, read, counts, left) && (rest == [] ==> read.sets == [])
    ensures rest == [] ==> left == []
  {
    hide Counted;
  }

  lemma CountedPrepended(entry: CrlSet, count: nat, sets: seq<CrlSet>, counts: seq<nat>, cut: bool)
    requires Counted(sets, counts, cut) && count < 0x1_0000_0000 && SmallSerials(entry.serials)
    requires |entry.serials| == count || (|entry.serials| < count && sets == [] && cut)
    ensures Counted([entry] + sets, [count] + counts, cut)
  {
    hide SmallSerials;
  }

  lemma EntryPrepended(entry: CrlSet, count: nat, sets: seq<CrlSet>, counts: seq<nat>)
    requires |counts| == |sets| && count < 0x1_0000_0000 && SmallSerials(entry.serials)
    requires forall i | 0 <= i < |sets| :: counts[i] < 0x1_0000_0000 && SmallSerials(sets[i].serials)
    ensures forall i | 0 <= i < |sets| + 1 ::
              ([count] + counts)[i] < 0x1_0000_0000 && SmallSerials(([entry] + sets)[i].serials)
    ensures RenderAllCounted([entry] + sets, [count] + counts)
            == RenderCounted(entry, count) + RenderAllCounted(sets, counts)
  {
    assert ([entry] + sets)[1..] == sets && ([count] + counts)[1..] == counts;
  }

  // ----- The parser ------------------------------------------------------------------------------

  lemma ReadStep(b: seq<Byte>, n: nat, serials: seq<seq<Byte>>)
    requires n > 0 && b != [] && b[0] < |b|
    ensures b[1..][..b[0]] == b[1..1 + b[0]] && b[1..][b[0]..] == b[1 + b[0]..]
    ensures serials + ReadSerials(b, n).read
            == serials + [b[1..][..b[0]]] + ReadSerials(b[1..][b[0]..], n - 1).read
  {
    var first, tail := b[1..][..b[0]], ReadSerials(b[1 + b[0]..], n - 1).read;
    assert first == b[1..1 + b[0]];
    assert b[1..][b[0]..] == b[1 + b[0]..];
    assert serials + ([first] + tail) == serials + [first] + tail;
  }

  /** The inner loop. */
  method ParseSerials(buffer: seq<Byte>, count: nat) returns (serials: seq<seq<Byte>>, b: seq<Byte>, truncated: bool)
    ensures var r := ReadSerials(buffer, count);
            serials == r.read && b == r.rest && truncated == r.truncated
  {
    serials, b, truncated := [], buffer, false;
    var n: nat := count;
    while n > 0 && |b| > 0
      invariant n <= count
      invariant ReadSerials(buffer, count).read == serials + ReadSerials(b, n).read
      invariant ReadSerials(buffer, count).rest == ReadSerials(b, n).rest
      invariant ReadSerials(buffer, count).truncated == ReadSerials(b, n).truncated
    {
      var serialSize := b[0];
      var next := b[1..];
      if |next| < serialSize {
        assert serials + [] == serials;
        b, truncated := next, true;
        return;
      }
      ReadStep(b, n, serials);
      serials := serials + [next[..serialSize]];
      b := next[serialSize..];
      n := n - 1;
    }
    assert serials + [] == serials;
  }

  /** The sets read so far, and those still to be read from `b`, are all. */
  predicate Stage(all: seq<Byte>, b: seq<Byte>, sets: seq<CrlSet>) {
    ReadSets(all).sets == sets + ReadSets(b).sets && ReadSets(all).error == ReadSets(b).error
  }

  lemma StageStarts(b: seq<Byte>)
    ensures Stage(b, b, [])
  {
    hide ReadSets;
    assert [] + ReadSets(b).sets == ReadSets(b).sets;
  }

  /** One turn of the outer loop. */
  lemma StageTurn(all: seq<Byte>, b: seq<Byte>, sets: seq<CrlSet>)
    requires Stage(all, b, sets) && |b| > HASH_SIZE + COUNT_SIZE
    ensures var serials := ReadSerials(b[HASH_SIZE + COUNT_SIZE..], Little32(b[HASH_SIZE..]));
            var entry := CrlSet(b[..HASH_SIZE], serials.read);
            && |serials.rest| < |b|
            && if serials.truncated then
                 ReadSets(all).sets == sets + [entry] && ReadSets(all).error == Some(SerialTruncated)
               else Stage(all, serials.rest, sets + [entry])
  {
    var serials := ReadSerials(b[HASH_SIZE + COUNT_SIZE..], Little32(b[HASH_SIZE..]));
    FirstSet(b);
    hide ReadSets, ReadSerials, Little32;
    if !serials.truncated {
      AppendAssociative(sets, CrlSet(b[..HASH_SIZE], serials.read), ReadSets(serials.rest).sets);
    }
  }

  lemma AppendAssociative(a: seq<CrlSet>, x: CrlSet, b: seq<CrlSet>)
    ensures a + ([x] + b) == a + [x] + b
  {
  }

  lemma StageEnds(all: seq<Byte>, b: seq<Byte>, sets: seq<CrlSet>)
    requires Stage(all, b, sets) && |b| <= HASH_SIZE + COUNT_SIZE
    ensures ReadSets(all).sets == sets && ReadSets(all).error == None
  {
    FirstSetNone(b);
    hide ReadSets;
    assert sets + [] == sets;
  }

  method ParseCrlSet(buffer: seq<Byte>) returns (sets: seq<CrlSet>, error: Option<CrlError>)
    ensures sets == ParseSpec(buffer).sets && error == ParseSpec(buffer).error
  {
    sets, error := [], None;
    var b := buffer;
    if |b| < 2 {
      return [], Some(HeaderLengthTruncated);
    }
    var headerLength := Little16(b);
    b := b[2..];
    if |b| < headerLength {
      return [], Some(HeaderTruncated);
    }
    assert b[headerLength..] == buffer[2 + headerLength..];
    b := b[headerLength..];
    ghost var afterHeader := b;
    StageStarts(b);
    while |b| > HASH_SIZE + COUNT_SIZE
      invariant Stage(afterHeader, b, sets)
      decreases |b|
    {
      StageTurn(afterHeader, b, sets);
      ghost var before := b;
      var entry := CrlSet(b[..HASH_SIZE], []);
      b := b[HASH_SIZE..];
      var serialCount := Little32(b);
      b := b[COUNT_SIZE..];
      assert b == before[HASH_SIZE + COUNT_SIZE..];
      var serials, rest, truncated := ParseSerials(b, serialCount);
      entry := entry.(serials := serials);
      sets := sets + [entry];
      b := rest;
      if truncated {
        return sets, Some(SerialTruncated);
      }
    }
    StageEnds(afterHeader, b, sets);
  }
}
