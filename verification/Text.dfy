/**
 String searching and splitting (lib/malloy/core/utils.hpp).

 Text is a `string` whose characters stand for C++ bytes. The functions on
 unbounded strings are the specification; the methods work with a 64-bit
 `size_t`, whose wrap-around is written out.
 */
module Text {
  import opened Wrappers

  /** One more than the largest `size_t`. */
  const SIZE_MODULUS: nat := 0x1_0000_0000_0000_0000

  /** `std::string_view::npos`. */
  const NPOS: nat := SIZE_MODULUS - 1

  /** `std::string_view::max_size()` on a 64-bit platform. */
  const MAX_SIZE: nat := 0x7FFF_FFFF_FFFF_FFFF

  /** Conversion to `size_t`. */
  function SizeT(x: int): (r: nat)
    ensures r <= NPOS
    ensures 0 <= x <= NPOS ==> r == x
    ensures NPOS < x <= 2 * NPOS ==> r == x - SIZE_MODULUS
  {
    x % SIZE_MODULUS
  }

  // ----- Searching ----------------------------------------------------------

  predicate OccursAt(s: string, d: string, i: nat) {
    i + |d| <= |s| && s[i..i + |d|] == d
  }

  ghost predicate Contains(s: string, d: string) {
    exists i: nat :: OccursAt(s, d, i)
  }

  /** `s.find(d, from)`: the first occurrence at or after `from`. */
  function Find(s: string, d: string, from: nat): (r: Option<nat>)
    ensures r.Some? ==> from <= r.value <= |s| - |d| && OccursAt(s, d, r.value)
    ensures r.Some? ==> forall j: nat | from <= j < r.value :: !OccursAt(s, d, j)
    ensures r.None? ==> forall j: nat | from <= j :: !OccursAt(s, d, j)
    decreases |s| - from
  {
    if from + |d| > |s| then None
    else if s[from..from + |d|] == d then Some(from)
    else Find(s, d, from + 1)
  }

  /** `Find` as C++ reports it: `npos` when there is no occurrence. */
  function FindSize(s: string, d: string, from: nat): nat {
    match Find(s, d, from)
    case Some(i) => i
    case None => NPOS
  }

  /** `s.substr(pos, count)` for a `pos` in range. */
  function Substr(s: string, pos: nat, count: nat): string
    requires pos <= |s|
  {
    if count <= |s| - pos then s[pos..pos + count] else s[pos..]
  }

  /** A substring whose length was computed as a difference: a negative one runs to the end. */
  function Slice(s: string, pos: nat, count: int): string
    requires pos <= |s|
  {
    if 0 <= count <= |s| - pos then s[pos..pos + count] else s[pos..]
  }

  /** A `size_t` difference that is not too negative acts on `substr` as `Slice` does. */
  lemma WrappedCountIsSlice(s: string, pos: nat, count: int)
    requires pos <= |s| <= MAX_SIZE
    requires -2 - MAX_SIZE as int <= count <= MAX_SIZE
    ensures Substr(s, pos, SizeT(count)) == Slice(s, pos, count)
  {
    if count < 0 {
      assert SizeT(count) == count + SIZE_MODULUS;
    }
  }

  lemma SliceOfSlice<T>(s: seq<T>, a: nat, b: nat, j: nat, n: nat)
    requires a <= b <= |s| && a + j + n <= b
    ensures s[a..b][j..j + n] == s[a + j..a + j + n]
  {
    var left, right := s[a..b][j..j + n], s[a + j..a + j + n];
    forall i | 0 <= i < n
      ensures left[i] == right[i]
    {
    }
  }

  /** The first occurrence is the only index with the properties `Find` promises. */
  lemma FindIsFirst(s: string, d: string, i: nat)
    requires OccursAt(s, d, i)
    requires forall j: nat | j < i :: !OccursAt(s, d, j)
    ensures Find(s, d, 0) == Some(i)
  {
  }

  /** No proper non-empty prefix of `d` is also a suffix of it. */
  ghost predicate Unbordered(d: string) {
    forall k | 0 < k < |d| :: d[k..] != d[..|d| - k]
  }

  /** `d` occurs across the end of `p` only if it occurs in `p` or overlaps itself. */
  lemma EarlyOccurrence(p: string, d: string, rest: string, j: nat)
    requires j < |p| && OccursAt(p + d + rest, d, j)
    ensures Contains(p, d) || !Unbordered(d)
  {
    var s := p + d + rest;
    if j + |d| <= |p| {
      assert s[j..j + |d|] == p[j..j + |d|];
      assert OccursAt(p, d, j);
    } else {
      var k := |p| - j;
      assert s[j..j + |d|][k..] == s[|p|..j + |d|] == d[..|d| - k];
    }
  }

  /** An unbordered delimiter is found first where it was put after a part free of it. */
  lemma FirstAfterFreePart(p: string, d: string, rest: string)
    requires d != "" && Unbordered(d) && !Contains(p, d)
    ensures Find(p + d + rest, d, 0) == Some(|p|)
  {
    var s := p + d + rest;
    assert s[|p|..|p| + |d|] == d;
    forall j: nat | j < |p|
      ensures !OccursAt(s, d, j)
    {
      if OccursAt(s, d, j) {
        EarlyOccurrence(p, d, rest, j);
        assert false;
      }
    }
    FindIsFirst(s, d, |p|);
  }

  lemma SingleCharUnbordered(d: string)
    requires |d| == 1
    ensures Unbordered(d)
    ensures forall s :: Contains(s, d) <==> d[0] in s
  {
    forall s
      ensures Contains(s, d) <==> d[0] in s
    {
      if d[0] in s {
        var i :| 0 <= i < |s| && s[i] == d[0];
        assert OccursAt(s, d, i);
      }
      if Contains(s, d) {
        var i: nat :| OccursAt(s, d, i);
        assert s[i] == s[i..i + |d|][0];
      }
    }
  }

  // ----- Splitting: the specification ---------------------------------------

  function Join(parts: seq<string>, d: string): string {
    if |parts| == 0 then ""
    else if |parts| == 1 then parts[0]
    else parts[0] + d + Join(parts[1..], d)
  }

  /** The leftmost non-overlapping split of `s` from `pos` on, empty pieces included. */
  function Pieces(s: string, d: string, pos: nat): (r: seq<string>)
    requires d != "" && pos <= |s|
    ensures r != []
    decreases |s| - pos
  {
    match Find(s, d, pos)
    case None => [s[pos..]]
    case Some(k) => [s[pos..k]] + Pieces(s, d, k + |d|)
  }

  function DropTrailingEmpty(parts: seq<string>): seq<string> {
    if |parts| > 1 && parts[|parts| - 1] == "" then parts[..|parts| - 1] else parts
  }

  /** Where the first piece starts: a leading delimiter is dropped. */
  function Start(s: string, d: string): (pos: nat)
    ensures pos <= |s|
  {
    if d <= s then |d| else 0
  }

  /** What `split` returns, for every string and every delimiter. */
  function SplitSpec(s: string, d: string): seq<string> {
    if s == "" then []
    else if d == "" then [s]
    else DropTrailingEmpty(Pieces(s, d, Start(s, d)))
  }

  /** Only the empty string has no pieces, whatever the delimiter. */
  lemma NoPieces(s: string, d: string)
    ensures SplitSpec(s, d) == [] <==> s == ""
  {
  }

  // ----- Splitting: what the specification means ----------------------------

  /**
   An independent description of the leftmost split: the pieces join back, in
   every piece but the last the delimiter that ends it is the first one, and
   the last piece has no delimiter.
   */
  ghost predicate EndsPiece(p: string, d: string) {
    Find(p + d, d, 0) == Some(|p|)
  }

  ghost predicate IsLeftmostSplit(parts: seq<string>, s: string, d: string) {
    && parts != []
    && Join(parts, d) == s
    && (forall i | 0 <= i < |parts| - 1 :: EndsPiece(parts[i], d))
    && !Contains(parts[|parts| - 1], d)
  }

  lemma FindIgnoresTail(p: string, d: string, rest: string)
    requires EndsPiece(p, d)
    ensures Find(p + d + rest, d, 0) == Some(|p|)
  {
    var s := p + d + rest;
    assert s[|p|..|p| + |d|] == d;
    forall j: nat | j < |p|
      ensures !OccursAt(s, d, j)
    {
      assert s[j..j + |d|] == (p + d)[j..j + |d|];
      assert !OccursAt(p + d, d, j);
    }
    FindIsFirst(s, d, |p|);
  }

  lemma LeftmostSplitLast(s: string, d: string)
    requires !Contains(s, d)
    ensures IsLeftmostSplit([s], s, d)
  {
    hide EndsPiece, Contains;
  }

  lemma LeftmostSplitCons(p: string, tail: seq<string>, rest: string, d: string)
    requires IsLeftmostSplit(tail, rest, d) && EndsPiece(p, d)
    ensures IsLeftmostSplit([p] + tail, p + d + rest, d)
  {
    hide EndsPiece, Contains;
    assert ([p] + tail)[1..] == tail;
  }

  /** The delimiter found in `s` at `k` is the first one in the piece it ends. */
  lemma FirstInPiece(s: string, d: string, pos: nat, k: nat)
    requires Find(s, d, pos) == Some(k)
    ensures EndsPiece(s[pos..k], d)
  {
    hide Find;
    var p := s[pos..k] + d;
    assert p == s[pos..k + |d|];
    forall j: nat | j <= k - pos
      ensures OccursAt(p, d, j) <==> OccursAt(s, d, pos + j)
    {
      SliceOfSlice(s, pos, k + |d|, j, |d|);
    }
    FindIsFirst(p, d, k - pos);
  }

  lemma FreeSuffix(s: string, d: string, pos: nat)
    requires pos <= |s| && Find(s, d, pos) == None
    ensures !Contains(s[pos..], d)
  {
    var rest := s[pos..];
    assert forall j: nat | pos <= j :: !OccursAt(s, d, j);
    hide Find;
    forall j: nat
      ensures !OccursAt(rest, d, j)
    {
      if j + |d| <= |rest| {
        assert !OccursAt(s, d, pos + j);
        SliceOfSlice(s, pos, |s|, j, |d|);
      }
    }
  }

  lemma {:induction false} PiecesIsLeftmostSplit(s: string, d: string, pos: nat)
    requires d != "" && pos <= |s|
    ensures IsLeftmostSplit(Pieces(s, d, pos), s[pos..], d)
    decreases |s| - pos
  {
    hide Find, EndsPiece, Contains, IsLeftmostSplit;
    match Find(s, d, pos)
    case None =>
      FreeSuffix(s, d, pos);
      LeftmostSplitLast(s[pos..], d);
    case Some(k) =>
      PiecesIsLeftmostSplit(s, d, k + |d|);
      FirstInPiece(s, d, pos, k);
      LeftmostSplitCons(s[pos..k], Pieces(s, d, k + |d|), s[k + |d|..], d);
      assert s[pos..] == s[pos..k] + d + s[k + |d|..];
  }

  lemma {:induction false} LeftmostSplitTail(parts: seq<string>, s: string, d: string)
    requires IsLeftmostSplit(parts, s, d) && |parts| > 1
    ensures IsLeftmostSplit(parts[1..], Join(parts[1..], d), d)
    ensures Find(s, d, 0) == Some(|parts[0]|)
    ensures s == parts[0] + d + Join(parts[1..], d)
  {
    FindIgnoresTail(parts[0], d, Join(parts[1..], d));
  }

  /** There is only one leftmost split. */
  lemma {:induction false} LeftmostSplitUnique(parts: seq<string>, parts': seq<string>, s: string, d: string)
    requires IsLeftmostSplit(parts, s, d) && IsLeftmostSplit(parts', s, d)
    ensures parts == parts'
  {
    if |parts| > 1 {
      LeftmostSplitTail(parts, s, d);
    }
    if |parts'| > 1 {
      LeftmostSplitTail(parts', s, d);
    }
    if |parts| > 1 && |parts'| > 1 {
      hide EndsPiece, Contains, Find, OccursAt, IsLeftmostSplit;
      var rest := Join(parts[1..], d);
      assert s[|parts[0]| + |d|..] == rest;
      assert parts[0] == s[..|parts[0]|] == parts'[0];
      LeftmostSplitUnique(parts[1..], parts'[1..], rest, d);
    }
  }

  /** `Pieces` is the leftmost split: it has its properties and nothing else does. */
  lemma PiecesCharacterized(parts: seq<string>, s: string, d: string, pos: nat)
    requires d != "" && pos <= |s|
    ensures IsLeftmostSplit(parts, s[pos..], d) <==> parts == Pieces(s, d, pos)
  {
    PiecesIsLeftmostSplit(s, d, pos);
    if IsLeftmostSplit(parts, s[pos..], d) {
      LeftmostSplitUnique(parts, Pieces(s, d, pos), s[pos..], d);
    }
  }

  lemma {:induction false} JoinIsLeftmostSplit(parts: seq<string>, d: string)
    requires parts != [] && d != "" && Unbordered(d)
    requires forall p | p in parts :: !Contains(p, d)
    ensures IsLeftmostSplit(parts, Join(parts, d), d)
  {
    forall i | 0 <= i < |parts| - 1
      ensures EndsPiece(parts[i], d)
    {
      FirstAfterFreePart(parts[i], d, "");
      assert parts[i] + d + "" == parts[i] + d;
    }
  }

  /** `parts` without the empty ends that `split` drops. */
  function WithoutEmptyEnds(parts: seq<string>): seq<string>
    requires parts != []
  {
    if parts == [""] then []
    else DropTrailingEmpty(if |parts| > 1 && parts[0] == "" then parts[1..] else parts)
  }

  lemma LeadingPart(parts: seq<string>, d: string)
    requires parts != [] && d != "" && IsLeftmostSplit(parts, Join(parts, d), d)
    ensures d <= Join(parts, d) <==> |parts| > 1 && parts[0] == ""
  {
    var s := Join(parts, d);
    assert d <= s <==> OccursAt(s, d, 0);
    if |parts| > 1 {
      LeftmostSplitTail(parts, s, d);
    }
  }

  /**
   `split` undoes joining by an unbordered delimiter, up to the empty ends it
   drops; it returns the parts themselves exactly when neither end is empty.
   */
  lemma SplitOfJoin(parts: seq<string>, d: string)
    requires parts != [] && d != "" && Unbordered(d)
    requires forall p | p in parts :: !Contains(p, d)
    ensures SplitSpec(Join(parts, d), d) == WithoutEmptyEnds(parts)
    ensures SplitSpec(Join(parts, d), d) == parts <==>
            parts[0] != "" && parts[|parts| - 1] != ""
  {
    JoinIsLeftmostSplit(parts, d);
    LeadingPart(parts, d);
    hide Contains, Unbordered, Join, SplitSpec, WithoutEmptyEnds, IsLeftmostSplit;
    if d <= Join(parts, d) {
      SplitWithLeading(parts, d);
    } else {
      SplitWithoutLeading(parts, d);
    }
    EndsKept(parts);
  }

  lemma EndsKept(parts: seq<string>)
    requires parts != []
    ensures WithoutEmptyEnds(parts) == parts <==> parts[0] != "" && parts[|parts| - 1] != ""
  {
  }

  lemma SplitWithLeading(parts: seq<string>, d: string)
    requires |parts| > 1 && parts[0] == "" && d != "" && d <= Join(parts, d)
    requires IsLeftmostSplit(parts, Join(parts, d), d)
    ensures SplitSpec(Join(parts, d), d) == WithoutEmptyEnds(parts)
  {
    var s := Join(parts, d);
    LeftmostSplitTail(parts, s, d);
    assert s[|d|..] == Join(parts[1..], d);
    PiecesCharacterized(parts[1..], s, d, |d|);
    hide Join, IsLeftmostSplit, Pieces;
  }

  lemma SplitWithoutLeading(parts: seq<string>, d: string)
    requires parts != [] && d != "" && !(d <= Join(parts, d)) && (|parts| == 1 || parts[0] != "")
    requires IsLeftmostSplit(parts, Join(parts, d), d)
    ensures SplitSpec(Join(parts, d), d) == WithoutEmptyEnds(parts)
  {
    var s := Join(parts, d);
    assert s[0..] == s;
    PiecesCharacterized(parts, s, d, 0);
    if s == "" {
      JoinIsEmpty(parts, d);
    }
    hide Join, IsLeftmostSplit, Pieces;
  }

  lemma JoinIsEmpty(parts: seq<string>, d: string)
    requires parts != [] && d != "" && Join(parts, d) == ""
    ensures parts == [""]
  {
  }

  /** No piece that `split` returns contains the delimiter. */
  lemma SplitPiecesAreFree(s: string, d: string)
    requires d != ""
    ensures forall p | p in SplitSpec(s, d) :: !Contains(p, d)
  {
    if s != "" {
      var parts := Pieces(s, d, Start(s, d));
      PiecesIsLeftmostSplit(s, d, Start(s, d));
      forall i | 0 <= i < |parts|
        ensures !Contains(parts[i], d)
      {
        if i < |parts| - 1 {
          PieceIsFree(parts[i], d);
        }
      }
    }
  }

  lemma PieceIsFree(p: string, d: string)
    requires d != "" && EndsPiece(p, d)
    ensures !Contains(p, d)
  {
    forall i: nat
      ensures !OccursAt(p, d, i)
    {
      if i + |d| <= |p| {
        assert (p + d)[i..i + |d|] == p[i..i + |d|];
        assert !OccursAt(p + d, d, i);
      }
    }
  }

  function Leading(s: string, d: string): string {
    if d != "" && d <= s then d else ""
  }

  /** The delimiter that ends `s` when `split` drops the empty piece after it. */
  function Trailing(s: string, d: string): string {
    if s != "" && d != "" && SplitSpec(s, d) != Pieces(s, d, Start(s, d)) then d else ""
  }

  /** Splitting undoes joining exactly for parts free of the delimiter that do not start or end with an empty one. */
  lemma SplitOfJoinExactly(parts: seq<string>, d: string)
    requires d != "" && Unbordered(d)
    ensures SplitSpec(Join(parts, d), d) == parts <==>
            && (forall p | p in parts :: !Contains(p, d))
            && (parts != [] ==> parts[0] != "" && parts[|parts| - 1] != "")
  {
    SplitPiecesAreFree(Join(parts, d), d);
    hide Contains, SplitSpec, Unbordered;
    if parts == [] {
      NoPieces("", d);
    } else if forall p | p in parts :: !Contains(p, d) {
      SplitOfJoin(parts, d);
    }
  }

  /** A slice of a text without the delimiter has none. */
  lemma FreeSlice(s: string, d: string, pos: nat, count: int)
    requires pos <= |s| && d != "" && !Contains(s, d)
    ensures !Contains(Slice(s, pos, count), d)
  {
    var part := Slice(s, pos, count);
    forall i: nat
      ensures !OccursAt(part, d, i)
    {
      if i + |d| <= |part| {
        assert part == s[pos..pos + |part|];
        SliceOfSlice(s, pos, pos + |part|, i, |d|);
        assert !OccursAt(s, d, pos + i);
      }
    }
  }

  lemma {:induction false} JoinSnocEmpty(parts: seq<string>, d: string)
    requires parts != []
    ensures Join(parts + [""], d) == Join(parts, d) + d
  {
    if |parts| == 1 {
      assert (parts + [""])[1..] == [""];
    } else {
      JoinSnocEmpty(parts[1..], d);
      assert (parts + [""])[1..] == parts[1..] + [""];
    }
  }

  lemma JoinDroppedTrailing(parts: seq<string>, d: string)
    requires parts != []
    ensures Join(parts, d) ==
            Join(DropTrailingEmpty(parts), d) + if DropTrailingEmpty(parts) != parts then d else ""
  {
    if DropTrailingEmpty(parts) != parts {
      assert parts == DropTrailingEmpty(parts) + [""];
      JoinSnocEmpty(DropTrailingEmpty(parts), d);
    }
  }

  /** Joining what `split` returns gives back the string, minus the ends it dropped. */
  lemma JoinOfSplit(s: string, d: string)
    ensures s == Leading(s, d) + Join(SplitSpec(s, d), d) + Trailing(s, d)
    ensures d != "" && s != "" ==> SplitSpec(s, d) != []
  {
    hide Pieces, EndsPiece, Contains, Find, OccursAt, Join;
    if s != "" && d != "" {
      PiecesIsLeftmostSplit(s, d, Start(s, d));
      JoinDroppedTrailing(Pieces(s, d, Start(s, d)), d);
      assert s == Leading(s, d) + s[Start(s, d)..];
      Associative(Leading(s, d), Join(SplitSpec(s, d), d), Trailing(s, d));
    } else if s != "" {
      JoinOfOne(s, d);
    } else {
      JoinOfNone(d);
    }
  }

  lemma Associative(a: string, b: string, c: string)
    ensures a + (b + c) == a + b + c
  {
  }

  lemma JoinOfOne(s: string, d: string)
    ensures Join([s], d) == s
  {
  }

  lemma JoinOfNone(d: string)
    ensures Join([], d) == ""
  {
  }

  // ----- Splitting: the code ------------------------------------------------

  /** The piece the loop captures, with the length computed in `size_t`. */
  lemma CapturedPiece(s: string, pos: nat, posFound: nat)
    requires pos <= |s| <= MAX_SIZE
    ensures posFound == NPOS ==> Substr(s, pos, SizeT(posFound - pos)) == s[pos..]
    ensures pos <= posFound <= |s| ==> Substr(s, pos, SizeT(posFound - pos)) == s[pos..posFound]
  {
  }

  /** The pieces captured so far and those from `pos` on make up the split. */
  ghost predicate Progress(s: string, d: string, pos: nat, parts: seq<string>)
    requires d != "" && pos <= |s|
  {
    parts + Pieces(s, d, pos) == Pieces(s, d, Start(s, d))
  }

  lemma FoundAtStart(s: string, d: string, pos: nat)
    ensures FindSize(s, d, pos) == 0 <==> pos == 0 && d <= s
  {
    assert d <= s <==> OccursAt(s, d, 0);
  }

  lemma FirstTurn(s: string, d: string, pos: nat, parts: seq<string>)
    requires d != "" && parts == [] && pos == Start(s, d)
    ensures Progress(s, d, pos, parts)
  {
    hide Pieces;
    assert [] + Pieces(s, d, pos) == Pieces(s, d, pos);
  }

  /** Where the loop of `split` is, with `parts` captured. */
  ghost predicate Stage(s: string, d: string, pos: nat, parts: seq<string>) {
    && d != "" && pos <= |s|
    && (pos < |s| || parts == [])
    && (pos == 0 ==> parts == [])
    && ((pos == 0 && d <= s) || Progress(s, d, pos, parts))
  }

  lemma StageStarts(s: string, d: string)
    requires d != ""
    ensures Stage(s, d, 0, [])
  {
    if !(d <= s) {
      FirstTurn(s, d, 0, []);
    }
  }

  lemma StageAfterLeading(s: string, d: string, parts: seq<string>)
    requires Stage(s, d, 0, parts) && d <= s
    ensures Stage(s, d, |d|, parts)
  {
    FirstTurn(s, d, |d|, parts);
  }

  lemma AppendAssociative<T>(a: seq<T>, x: T, b: seq<T>)
    ensures a + ([x] + b) == a + [x] + b
  {
  }

  lemma DropsFinalEmpty(parts: seq<string>)
    requires parts != []
    ensures DropTrailingEmpty(parts + [""]) == parts
  {
  }

  /** A turn of the loop that finds a delimiter at `k`. */
  lemma Turn(s: string, d: string, pos: nat, parts: seq<string>, k: nat)
    requires d != "" && pos <= |s| && Find(s, d, pos) == Some(k) && Progress(s, d, pos, parts)
    ensures Progress(s, d, k + |d|, parts + [s[pos..k]])
  {
    hide Find, OccursAt, Start;
    AppendAssociative(parts, s[pos..k], Pieces(s, d, k + |d|));
  }

  /** Nothing is left after the captured piece. */
  lemma EndReached(s: string, d: string, parts: seq<string>)
    requires d != "" && s != "" && parts != [] && Progress(s, d, |s|, parts)
    ensures SplitSpec(s, d) == parts
  {
    hide OccursAt, Start, DropTrailingEmpty;
    assert s[|s|..] == "";
    assert Pieces(s, d, |s|) == [""];
    DropsFinalEmpty(parts);
  }

  /** The turn that finds none. */
  lemma LastTurn(s: string, d: string, pos: nat, parts: seq<string>)
    requires d != "" && pos <= |s| && Find(s, d, pos) == None && Progress(s, d, pos, parts)
    requires s != "" && (pos < |s| || parts == [])
    ensures SplitSpec(s, d) == parts + [s[pos..]]
  {
  }

  /** One turn that captures a piece. */
  lemma StageTurn(s: string, d: string, pos: nat, parts: seq<string>, posFound: nat, captured: seq<string>)
    requires |s| <= MAX_SIZE && |d| <= MAX_SIZE && s != ""
    requires Stage(s, d, pos, parts) && posFound == FindSize(s, d, pos) != 0
    requires captured == parts + [Substr(s, pos, SizeT(posFound as int - pos))]
    ensures if SizeT(posFound + |d|) >= |s| || posFound == NPOS then SplitSpec(s, d) == captured
            else pos < SizeT(posFound + |d|) && Stage(s, d, SizeT(posFound + |d|), captured)
  {
    FoundAtStart(s, d, pos);
    LoopTurn(s, d, pos, parts, posFound);
    hide Progress, SplitSpec, Substr;
  }

  /** What it does, in terms of the `size_t` values the code computes. */
  lemma LoopTurn(s: string, d: string, pos: nat, parts: seq<string>, posFound: nat)
    requires |s| <= MAX_SIZE && |d| <= MAX_SIZE && d != "" && s != "" && pos <= |s|
    requires posFound == FindSize(s, d, pos) && Progress(s, d, pos, parts) && (pos < |s| || parts == [])
    ensures var piece := Substr(s, pos, SizeT(posFound as int - pos));
            if SizeT(posFound + |d|) >= |s| || posFound == NPOS then SplitSpec(s, d) == parts + [piece]
            else SizeT(posFound + |d|) == posFound + |d| <= |s| &&
                 Progress(s, d, posFound + |d|, parts + [piece])
  {
    CapturedPiece(s, pos, posFound);
    if posFound == NPOS {
      LastTurn(s, d, pos, parts);
    } else {
      Turn(s, d, pos, parts, posFound);
      hide Find, SizeT, OccursAt, Substr, SplitSpec, Progress;
      if posFound + |d| == |s| {
        EndReached(s, d, parts + [s[pos..posFound]]);
      }
    }
  }

  /**
   The loop of `split`. The comparison after a captured piece is done in
   `size_t`, where `npos + delimiter.size()` wraps around.
   */
  method Split(str: string, delimiter: string) returns (parts: seq<string>)
    requires |str| <= MAX_SIZE && |delimiter| <= MAX_SIZE
    ensures parts == SplitSpec(str, delimiter)
  {
    if |str| == 0 {
      return [];
    }
    if |delimiter| == 0 {
      return [str];
    }
    parts := [];
    var pos := 0;
    StageStarts(str, delimiter);
    while pos != NPOS
      invariant Stage(str, delimiter, pos, parts)
      decreases |str| - pos
    {
      var posFound := FindSize(str, delimiter, pos);
      FoundAtStart(str, delimiter, pos);
      if posFound == 0 {
        StageAfterLeading(str, delimiter, parts);
        pos := SizeT(pos + |delimiter|);
        continue;
      }
      ghost var captured := parts + [Substr(str, pos, SizeT(posFound as int - pos))];
      StageTurn(str, delimiter, pos, parts, posFound, captured);
      parts := parts + [Substr(str, pos, SizeT(posFound as int - pos))];
      if SizeT(posFound + |delimiter|) >= |str| {
        break;
      }
      if posFound == NPOS {
        break;
      }
      pos := SizeT(posFound + |delimiter|);
    }
  }
}
