/**
 Parsing of multipart bodies (lib/malloy/core/html/multipart_parser.cpp), and
 a renderer it undoes (section 5.1.1 of RFC 2046, section 4 of RFC 7578).
 */
module Multipart {
  import opened Wrappers
  import opened Text

  const CRLF := "\r\n"
  const DISPOSITION := "Content-Disposition: "
  const TYPE := "Content-Type: "

  datatype Part = Part(disposition: string, contentType: string, content: string)

  const EMPTY_PART := Part("", "", "")

  function BoundaryLine(boundary: string): string {
    "--" + boundary + CRLF
  }

  function LastBoundaryLine(boundary: string): string {
    "--" + boundary + "--"
  }

  // ----- One part: the specification ------------------------------------------

  /** What a header line does to the part being assembled. */
  function ReadHeader(p: Part, line: string): Part {
    if DISPOSITION <= line then p.(disposition := line[|DISPOSITION|..])
    else if TYPE <= line then p.(contentType := line[|TYPE|..])
    else p
  }

  /** Headers up to the first empty line, and the characters they account for. */
  function ReadHeaders(lines: seq<string>, p: Part, counter: nat): (Part, nat) {
    if lines == [] then (p, counter)
    else if lines[0] == "" then (p, counter + 2)
    else ReadHeaders(lines[1..], ReadHeader(p, lines[0]), counter + |lines[0]| + 2)
  }

  /** A part, none for an empty text, or the exception of `substr`. */
  function ParsePartSpec(raw: string): Result<Option<Part>> {
    if raw == "" then Ok(None)
    else
      var (p, counter) := ReadHeaders(SplitSpec(raw, CRLF), EMPTY_PART, 0);
      if counter > |raw| then Throws(OutOfRange)
      else Ok(Some(p.(content := Slice(raw, counter, |raw| - counter - 2))))
  }

  // ----- The whole body: the specification ------------------------------------

  /** Where boundary lines start, searching from `from`. */
  function BoundaryStarts(body: string, line: string, from: nat): (starts: seq<nat>)
    requires line != ""
    ensures forall i | 0 <= i < |starts| :: from <= starts[i] <= |body| - |line|
    decreases |body| - from
  {
    match Find(body, line, from)
    case None => []
    case Some(pos) => [pos] + BoundaryStarts(body, line, pos + |line|)
  }

  /** The texts between one boundary line and the next boundary. */
  function RawParts(body: string, starts: seq<nat>, lineSize: nat): (raws: seq<string>)
    requires starts != [] && forall i | 0 <= i < |starts| - 1 :: starts[i] + lineSize <= |body|
    ensures |raws| == |starts| - 1
  {
    seq(|starts| - 1, i requires 0 <= i < |starts| - 1 =>
      Slice(body, starts[i] + lineSize, starts[i + 1] as int - (starts[i] + lineSize)))
  }

  /** The parts that are not empty; the first exception ends the parse. */
  function ParseAll(raws: seq<string>): Result<seq<Part>> {
    if raws == [] then Ok([])
    else
      match ParsePartSpec(raws[0])
      case Throws(e) => Throws(e)
      case Ok(part) =>
        match ParseAll(raws[1..])
        case Throws(e) => Throws(e)
        case Ok(rest) => Ok((if part.Some? then [part.value] else []) + rest)
  }

  function ParseSpec(body: string, boundary: string): Result<seq<Part>> {
    if body == "" || boundary == "" then Ok([])
    else
      var starts := BoundaryStarts(body, BoundaryLine(boundary), 0);
      if starts == [] then Ok([])
      else
        match Find(body, LastBoundaryLine(boundary), starts[|starts| - 1])
        case None => Ok([])
        case Some(last) => ParseAll(RawParts(body, starts + [last], |BoundaryLine(boundary)|))
  }

  // ----- The renderer ----------------------------------------------------------

  /** Header lines, an empty line and a text. */
  function RenderLines(lines: seq<string>, text: string): string {
    if lines == [] then CRLF + text
    else lines[0] + CRLF + RenderLines(lines[1..], text)
  }

  /** The header lines of a part; the type is left out when it is empty. */
  function HeaderLines(p: Part): seq<string> {
    [DISPOSITION + p.disposition] + if p.contentType == "" then [] else [TYPE + p.contentType]
  }

  function RenderPart(p: Part): string {
    RenderLines(HeaderLines(p), p.content + CRLF)
  }

  function Render(parts: seq<Part>, boundary: string): string {
    if parts == [] then LastBoundaryLine(boundary)
    else BoundaryLine(boundary) + RenderPart(parts[0]) + Render(parts[1..], boundary)
  }

  /** No header is broken into lines. */
  ghost predicate IsPart(p: Part) {
    !Contains(p.disposition, CRLF) && !Contains(p.contentType, CRLF)
  }

  ghost predicate IsBoundary(boundary: string) {
    boundary != "" && '\r' !in boundary && '\n' !in boundary
  }

  // ----- One part: parsing undoes rendering -------------------------------------

  function ReadAll(lines: seq<string>, p: Part): Part {
    if lines == [] then p else ReadAll(lines[1..], ReadHeader(p, lines[0]))
  }

  /** The characters of the header lines, line breaks included. */
  function Size(lines: seq<string>): nat {
    if lines == [] then 0 else |lines[0]| + 2 + Size(lines[1..])
  }

  lemma LineBreakUnbordered()
    ensures Unbordered(CRLF)
  {
    assert CRLF[1..] == "\n" && CRLF[..1] == "\r";
  }

  lemma LineEndsPiece(line: string)
    requires !Contains(line, CRLF)
    ensures EndsPiece(line, CRLF)
  {
    LineBreakUnbordered();
    FirstAfterFreePart(line, CRLF, "");
    assert line + CRLF + "" == line + CRLF;
  }

  /** The pieces of a rendering: its lines, an empty one, those of the text. */
  lemma {:induction false} RenderedPieces(lines: seq<string>, text: string)
    requires forall line | line in lines :: !Contains(line, CRLF)
    ensures IsLeftmostSplit(lines + [""] + Pieces(text, CRLF, 0), RenderLines(lines, text), CRLF)
  {
    hide IsLeftmostSplit, EndsPiece, Contains, Pieces;
    var tail := Pieces(text, CRLF, 0);
    if lines == [] {
      PiecesIsLeftmostSplit(text, CRLF, 0);
      assert text[0..] == text;
      assert !Contains("", CRLF) by { NothingInEmpty(); }
      LineEndsPiece("");
      LeftmostSplitCons("", tail, text, CRLF);
      assert "" + CRLF + text == RenderLines(lines, text);
      assert [""] + tail == lines + [""] + tail;
    } else {
      RenderedPieces(lines[1..], text);
      LineEndsPiece(lines[0]);
      LeftmostSplitCons(lines[0], lines[1..] + [""] + tail, RenderLines(lines[1..], text), CRLF);
      assert [lines[0]] + (lines[1..] + [""] + tail) == lines + [""] + tail;
    }
  }

  lemma NothingInEmpty()
    ensures !Contains("", CRLF)
  {
  }

  lemma {:induction false} ReadRendered(lines: seq<string>, all: seq<string>, p: Part, counter: nat)
    requires "" !in lines && lines + [""] <= all
    ensures ReadHeaders(all, p, counter).0 == ReadAll(lines, p)
    ensures ReadHeaders(all, p, counter).1 == counter + Size(lines) + 2
  {
    hide ReadHeader;
    if lines == [] {
      assert all[0] == "";
    } else {
      assert all[0] == (lines + [""])[0] == lines[0];
      assert all[1..][..|lines|] == all[..|lines| + 1][1..] == lines[1..] + [""];
      ReadRendered(lines[1..], all[1..], ReadHeader(p, lines[0]), counter + |lines[0]| + 2);
    }
  }

  lemma {:induction false} TextOffset(lines: seq<string>, text: string)
    ensures |RenderLines(lines, text)| == Size(lines) + 2 + |text|
    ensures RenderLines(lines, text)[Size(lines) + 2..] == text
  {
    if lines != [] {
      TextOffset(lines[1..], text);
      var rest := RenderLines(lines[1..], text);
      var n := |lines[0]| + 2;
      assert RenderLines(lines, text) == (lines[0] + CRLF) + rest;
      assert RenderLines(lines, text)[n + (Size(lines[1..]) + 2)..] == rest[Size(lines[1..]) + 2..];
    }
  }

  lemma PrefixSurvives(front: seq<string>, tail: seq<string>)
    requires tail != []
    ensures front <= DropTrailingEmpty(front + tail)
  {
  }

  /**
   The lines `split` finds in a rendering. The first header line is not
   empty, so that no leading line break is dropped.
   */
  lemma RenderedLines(lines: seq<string>, text: string)
    requires lines != [] && "" !in lines
    requires forall line | line in lines :: !Contains(line, CRLF)
    ensures RenderLines(lines, text) != ""
    ensures lines + [""] <= SplitSpec(RenderLines(lines, text), CRLF)
  {
    var raw := RenderLines(lines, text);
    var tail := Pieces(text, CRLF, 0);
    var all := lines + [""] + tail;
    RenderedPieces(lines, text);
    LeftmostSplitTail(all, raw, CRLF);
    assert all[0] == lines[0];
    assert CRLF <= raw ==> OccursAt(raw, CRLF, 0);
    assert raw[0..] == raw;
    PiecesCharacterized(all, raw, CRLF, 0);
    PrefixSurvives(lines + [""], tail);
  }

  /** A text without its last two characters; a shorter one stays. */
  function WithoutBreak(text: string): string {
    if |text| < 2 then text else text[..|text| - 2]
  }

  lemma TextSlice(raw: string, counter: nat, text: string)
    requires counter <= |raw| && raw[counter..] == text
    ensures Slice(raw, counter, |raw| - counter - 2) == WithoutBreak(text)
  {
    if |text| >= 2 {
      assert raw[counter..counter + (|text| - 2)] == raw[counter..][..|text| - 2];
    }
  }

  lemma PartFromHeaders(raw: string, p: Part, counter: nat, text: string)
    requires raw != ""
    requires ReadHeaders(SplitSpec(raw, CRLF), EMPTY_PART, 0).0 == p
    requires ReadHeaders(SplitSpec(raw, CRLF), EMPTY_PART, 0).1 == counter
    requires counter <= |raw| && raw[counter..] == text
    ensures ParsePartSpec(raw) == Ok(Some(p.(content := WithoutBreak(text))))
  {
    hide SplitSpec, ReadHeaders, Slice;
    TextSlice(raw, counter, text);
  }

  /**
   For any header lines and any text: the content is what stands behind the
   first empty line, without the last two characters, and every header is read.
   */
  lemma ParseOfRenderedLines(lines: seq<string>, text: string)
    requires lines != [] && "" !in lines
    requires forall line | line in lines :: !Contains(line, CRLF)
    ensures ParsePartSpec(RenderLines(lines, text)) ==
            Ok(Some(ReadAll(lines, EMPTY_PART).(content := WithoutBreak(text))))
  {
    var raw := RenderLines(lines, text);
    RenderedLines(lines, text);
    hide *;
    ReadRendered(lines, SplitSpec(raw, CRLF), EMPTY_PART, 0);
    TextOffset(lines, text);
    PartFromHeaders(raw, ReadAll(lines, EMPTY_PART), Size(lines) + 2, text);
  }

  lemma CharDiffers(s: string, d: string, j: nat, i: nat)
    requires i < |d| && j + i < |s| && s[j + i] != d[i]
    ensures !OccursAt(s, d, j)
  {
    assert j + |d| <= |s| ==> s[j..j + |d|][i] == s[j + i];
  }

  lemma InSecond(a: string, b: string, i: nat)
    requires |a| <= i && i + 2 <= |a + b|
    ensures (a + b)[i..i + 2] == b[i - |a|..i - |a| + 2]
  {
  }

  lemma ConcatFree(a: string, b: string)
    requires !Contains(b, CRLF) && '\r' !in a
    ensures !Contains(a + b, CRLF)
  {
    forall i: nat
      ensures !OccursAt(a + b, CRLF, i)
    {
      if i + 2 <= |a + b| {
        if i < |a| {
          CharDiffers(a + b, CRLF, i, 0);
        } else {
          InSecond(a, b, i);
          assert !OccursAt(b, CRLF, i - |a|);
        }
      }
    }
  }

  /** The headers of a part in front of any text are read. */
  lemma ParseOfHeaders(p: Part, text: string)
    requires IsPart(p)
    ensures ParsePartSpec(RenderLines(HeaderLines(p), text)) == Ok(Some(p.(content := WithoutBreak(text))))
  {
    ConcatFree(DISPOSITION, p.disposition);
    ConcatFree(TYPE, p.contentType);
    var lines := HeaderLines(p);
    hide Contains, ParsePartSpec;
    ParseOfRenderedLines(lines, text);
    HeadersOf(p);
  }

  lemma ParseOfRenderedPart(p: Part)
    requires IsPart(p)
    ensures ParsePartSpec(RenderPart(p)) == Ok(Some(p))
  {
    hide ParsePartSpec, IsPart;
    ParseOfHeaders(p, p.content + CRLF);
  }

  lemma HeadersOf(p: Part)
    ensures ReadAll(HeaderLines(p), EMPTY_PART) == p.(content := "")
  {
    var d, t := DISPOSITION + p.disposition, TYPE + p.contentType;
    assert d[|DISPOSITION|..] == p.disposition;
    assert t[|TYPE|..] == p.contentType;
    assert t[8] != DISPOSITION[8];
    var p1 := ReadHeader(EMPTY_PART, d);
    if p.contentType == "" {
      assert HeaderLines(p)[1..] == [];
    } else {
      var rest := HeaderLines(p)[1..];
      assert rest == [t] && rest[1..] == [];
      assert ReadAll(rest, p1) == ReadAll(rest[1..], ReadHeader(p1, t)) == ReadHeader(p1, t);
      assert TYPE <= t;
    }
  }

  // ----- The code ---------------------------------------------------------------

  lemma {:induction false} SizeOfJoin(lines: seq<string>)
    requires lines != []
    ensures Size(lines) == |Join(lines, CRLF)| + 2
  {
    if |lines| > 1 {
      SizeOfJoin(lines[1..]);
    } else {
      assert lines[1..] == [];
    }
  }

  /** The counter cannot run more than one line break past the text. */
  lemma CounterBound(raw: string)
    requires raw != ""
    ensures Size(SplitSpec(raw, CRLF)) <= |raw| + 2
  {
    JoinOfSplit(raw, CRLF);
    SizeOfJoin(SplitSpec(raw, CRLF));
  }

  lemma {:induction false} CounterValue(lines: seq<string>, p: Part, counter: nat)
    ensures "" !in lines ==> ReadHeaders(lines, p, counter).1 == counter + Size(lines)
    ensures "" in lines ==> ReadHeaders(lines, p, counter).1 <= counter + Size(lines)
    ensures "" in lines && lines[|lines| - 1] != "" ==> ReadHeaders(lines, p, counter).1 <= counter + Size(lines) - 2
  {
    hide ReadHeader;
    if lines != [] && lines[0] != "" {
      CounterValue(lines[1..], ReadHeader(p, lines[0]), counter + |lines[0]| + 2);
    } else if |lines| > 1 {
      SizeAtLeast(lines[1..]);
    }
  }

  lemma SizeAtLeast(lines: seq<string>)
    requires lines != []
    ensures Size(lines) >= 2
  {
  }

  lemma EmptyLastLine(raw: string)
    requires raw != ""
    ensures SplitSpec(raw, CRLF) != []
    ensures SplitSpec(raw, CRLF)[|SplitSpec(raw, CRLF)| - 1] == "" ==>
            Leading(raw, CRLF) != "" || Trailing(raw, CRLF) != ""
  {
    hide Pieces;
    var pieces := Pieces(raw, CRLF, Start(raw, CRLF));
    if pieces == [""] {
      PiecesIsLeftmostSplit(raw, CRLF, Start(raw, CRLF));
    }
  }

  /**
   The offset of the content leaves the text, and `substr` throws, exactly
   when the text has no empty line and no line break at either end.
   */
  lemma PartThrows(raw: string)
    ensures ParsePartSpec(raw).Throws? <==>
            raw != "" && "" !in SplitSpec(raw, CRLF) && Leading(raw, CRLF) == "" && Trailing(raw, CRLF) == ""
  {
    if raw != "" {
      var lines := SplitSpec(raw, CRLF);
      JoinOfSplit(raw, CRLF);
      EmptyLastLine(raw);
      SizeOfJoin(lines);
      CounterValue(lines, EMPTY_PART, 0);
      hide SplitSpec, ReadHeaders, Size, Join;
      assert |raw| == |Leading(raw, CRLF)| + (Size(lines) - 2) + |Trailing(raw, CRLF)|;
    }
  }

  /** Where the loop over the lines of a part is; the counter stays near the text. */
  ghost predicate HeadersStage(raw: string, lines: seq<string>, i: nat, p: Part, counter: nat) {
    && lines == SplitSpec(raw, CRLF) && i <= |lines|
    && counter + Size(lines[i..]) <= |raw| + 2
    && HeadersAre(raw, ReadHeaders(lines[i..], p, counter).0, ReadHeaders(lines[i..], p, counter).1)
  }

  predicate HeadersAre(raw: string, p: Part, counter: nat) {
    ReadHeaders(SplitSpec(raw, CRLF), EMPTY_PART, 0) == (p, counter)
  }

  lemma HeadersStart(raw: string)
    requires raw != ""
    ensures HeadersStage(raw, SplitSpec(raw, CRLF), 0, EMPTY_PART, 0)
  {
    CounterBound(raw);
    var lines := SplitSpec(raw, CRLF);
    hide SplitSpec, ReadHeaders, Size;
    assert lines[0..] == lines;
  }

  /** One turn: an empty line ends the headers. */
  lemma HeadersTurn(raw: string, lines: seq<string>, i: nat, p: Part, counter: nat)
    requires |raw| <= MAX_SIZE && HeadersStage(raw, lines, i, p, counter) && i < |lines|
    ensures var next := SizeT(counter + |lines[i]| + 2);
            if lines[i] == "" then HeadersAre(raw, p, next) && next <= |raw| + 2
            else HeadersStage(raw, lines, i + 1, ReadHeader(p, lines[i]), next)
  {
    var rest := lines[i..];
    assert rest[0] == lines[i] && rest[1..] == lines[i + 1..];
    assert counter + |lines[i]| + 2 + Size(rest[1..]) <= |raw| + 2;
    hide SplitSpec, ReadHeader, HeadersAre, Size;
  }

  lemma HeadersEnd(raw: string, lines: seq<string>, p: Part, counter: nat)
    requires HeadersStage(raw, lines, |lines|, p, counter)
    ensures HeadersAre(raw, p, counter) && counter <= |raw| + 2
  {
    hide SplitSpec, HeadersAre;
    assert lines[|lines|..] == [];
  }

  lemma HeadersDone(raw: string, p: Part, counter: nat)
    requires |raw| <= MAX_SIZE && raw != "" && HeadersAre(raw, p, counter) && counter <= |raw| + 2
    ensures ParsePartSpec(raw) ==
            if counter > |raw| then Throws(OutOfRange)
            else Ok(Some(p.(content := Substr(raw, counter, SizeT(|raw| - counter - 2)))))
  {
    hide SplitSpec, ReadHeaders, SizeT, Substr, Slice;
    if counter <= |raw| {
      WrappedCountIsSlice(raw, counter, |raw| - counter - 2);
    }
  }

  method ParsePart(partRaw: string) returns (r: Result<Option<Part>>)
    requires |partRaw| <= MAX_SIZE
    ensures r == ParsePartSpec(partRaw)
  {
    if |partRaw| == 0 {
      return Ok(None);
    }
    var p := EMPTY_PART;
    var charCounter: nat := 0;
    var lines := Split(partRaw, CRLF);
    HeadersStart(partRaw);
    var i := 0;
    ghost var open := true;
    while i < |lines|
      invariant open && i <= |lines| && HeadersStage(partRaw, lines, i, p, charCounter)
    {
      var line := lines[i];
      HeadersTurn(partRaw, lines, i, p, charCounter);
      charCounter := SizeT(charCounter + |line| + 2);
      i := i + 1;
      if DISPOSITION <= line {
        p := p.(disposition := line[|DISPOSITION|..]);
        continue;
      }
      if TYPE <= line {
        p := p.(contentType := line[|TYPE|..]);
        continue;
      }
      if |line| == 0 {
        open := false;
        break;
      }
    }
    if open {
      HeadersEnd(partRaw, lines, p, charCounter);
    }
    HeadersDone(partRaw, p, charCounter);
    if charCounter > |partRaw| {
      return Throws(OutOfRange);
    }
    return Ok(Some(p.(content := Substr(partRaw, charCounter, SizeT(|partRaw| - charCounter - 2)))));
  }

  /** The search finds the pattern first at `k`. */
  ghost predicate FoundAt(s: string, d: string, from: nat, k: nat) {
    Find(s, d, from).Some? && Find(s, d, from).value == k
  }

  lemma NoBoundaryLeft(body: string, line: string, pos: nat)
    requires line != "" && Find(body, line, pos).None?
    ensures BoundaryStarts(body, line, pos) == []
  {
    hide Find;
  }

  lemma FirstBoundary(body: string, line: string, pos: nat, k: nat)
    requires line != "" && FoundAt(body, line, pos, k)
    ensures BoundaryStarts(body, line, pos) == [k] + BoundaryStarts(body, line, k + |line|)
  {
    hide Find;
  }

  /** The boundaries up to `pos` have been found. */
  ghost predicate Searched(body: string, line: string, pos: nat, starts: seq<nat>) {
    line != "" && starts + BoundaryStarts(body, line, pos) == BoundaryStarts(body, line, 0)
  }

  lemma SearchStarts(body: string, line: string)
    requires line != ""
    ensures Searched(body, line, 0, [])
  {
    hide BoundaryStarts;
    assert [] + BoundaryStarts(body, line, 0) == BoundaryStarts(body, line, 0);
  }

  lemma SearchTurn(body: string, line: string, pos: nat, starts: seq<nat>, found: nat)
    requires |body| <= MAX_SIZE && pos <= |body| && Searched(body, line, pos, starts)
    requires found == FindSize(body, line, pos)
    ensures if found == NPOS || found >= |body| then starts == BoundaryStarts(body, line, 0)
            else pos < SizeT(found + |line|) <= |body| && Searched(body, line, SizeT(found + |line|), starts + [found])
  {
    if Find(body, line, pos).None? {
      NoBoundaryLeft(body, line, pos);
      assert starts + [] == starts;
    } else {
      SearchFinds(body, line, pos, starts, found);
      hide Searched, Find, OccursAt;
    }
  }

  lemma SearchFinds(body: string, line: string, pos: nat, starts: seq<nat>, k: nat)
    requires Searched(body, line, pos, starts) && Find(body, line, pos).Some? && k == Find(body, line, pos).value
    ensures Searched(body, line, k + |line|, starts + [k])
  {
    FirstBoundary(body, line, pos, k);
    hide BoundaryStarts, Find, OccursAt;
    AppendAssociative(starts, k, BoundaryStarts(body, line, k + |line|));
  }

  method FindBoundaries(body: string, boundaryLine: string) returns (starts: seq<nat>)
    requires boundaryLine != "" && |body| <= MAX_SIZE
    ensures starts == BoundaryStarts(body, boundaryLine, 0)
  {
    starts := [];
    var pos := 0;
    SearchStarts(body, boundaryLine);
    while true
      invariant pos <= |body| && Searched(body, boundaryLine, pos, starts)
      decreases |body| - pos
    {
      var found := FindSize(body, boundaryLine, pos);
      SearchTurn(body, boundaryLine, pos, starts, found);
      pos := found;
      if pos == NPOS || pos >= |body| {
        break;
      }
      starts := starts + [pos];
      pos := SizeT(pos + |boundaryLine|);
    }
  }

  /** What the loop over the parts has left to do, behind what it has parsed. */
  function Prepend(parts: seq<Part>, r: Result<seq<Part>>): Result<seq<Part>> {
    match r
    case Throws(e) => Throws(e)
    case Ok(rest) => Ok(parts + rest)
  }

  lemma PrependNothing(r: Result<seq<Part>>)
    ensures Prepend([], r) == r
  {
    if r.Ok? {
      assert [] + r.value == r.value;
    }
  }

  /** One turn of the second loop of `parse`. */
  lemma ParseStep(raws: seq<string>, i: nat, parts: seq<Part>)
    requires i < |raws|
    ensures Prepend(parts, ParseAll(raws[i..])) ==
            match ParsePartSpec(raws[i])
            case Throws(e) => Throws(e)
            case Ok(part) =>
              Prepend(parts + if part.Some? then [part.value] else [], ParseAll(raws[i + 1..]))
  {
    hide ParsePartSpec;
    assert raws[i..][1..] == raws[i + 1..];
    var part, tail := ParsePartSpec(raws[i]), ParseAll(raws[i + 1..]);
    if part.Ok? && tail.Ok? {
      var first := if part.value.Some? then [part.value.value] else [];
      assert parts + (first + tail.value) == (parts + first) + tail.value;
    }
  }

  lemma AllParsed(raws: seq<string>, parts: seq<Part>)
    ensures Prepend(parts, ParseAll(raws[|raws|..])) == Ok(parts)
  {
    assert parts + [] == parts;
  }

  /** The text of a part, with its length computed in `size_t`. */
  function RawPart(body: string, startPos: nat, endPos: nat): string
    requires startPos <= |body|
  {
    Substr(body, startPos, SizeT(endPos as int - startPos))
  }

  lemma RawPartIs(body: string, starts: seq<nat>, lineSize: nat, i: nat)
    requires starts != [] && |body| <= MAX_SIZE && i < |starts| - 1 && starts[i + 1] <= |body|
    requires forall k | 0 <= k < |starts| - 1 :: starts[k] + lineSize <= |body|
    ensures RawPart(body, starts[i] + lineSize, starts[i + 1]) == RawParts(body, starts, lineSize)[i]
    ensures |RawPart(body, starts[i] + lineSize, starts[i + 1])| <= |body|
  {
    hide SizeT, Substr;
    WrappedCountIsSlice(body, starts[i] + lineSize, starts[i + 1] as int - (starts[i] + lineSize));
  }

  /** The second loop of `parse`: one part between each boundary and the next. */
  method ParseParts(body: string, starts: seq<nat>, lineSize: nat) returns (r: Result<seq<Part>>)
    requires |body| <= MAX_SIZE && starts != []
    requires forall k | 0 <= k < |starts| - 1 :: starts[k] + lineSize <= |body|
    requires forall k | 0 <= k < |starts| :: starts[k] <= |body|
    ensures r == ParseAll(RawParts(body, starts, lineSize))
  {
    var parts := [];
    var i := 0;
    ghost var raws := RawParts(body, starts, lineSize);
    assert raws[0..] == raws;
    PrependNothing(ParseAll(raws));
    hide *;
    while i < |starts| - 1
      invariant i <= |starts| - 1 == |raws|
      invariant Prepend(parts, ParseAll(raws[i..])) == ParseAll(raws)
    {
      RawPartIs(body, starts, lineSize, i);
      ParseStep(raws, i, parts);
      var part := ParsePart(RawPart(body, starts[i] + lineSize, starts[i + 1]));
      if part.Throws? {
        return Throws(part.what);
      }
      parts := parts + if part.value.Some? then [part.value.value] else [];
      i := i + 1;
    }
    AllParsed(raws, parts);
    return Ok(parts);
  }

  lemma {:induction false} ReadHeadersSize(lines: seq<string>, p: Part, counter: nat, n: nat)
    requires (forall line | line in lines :: |line| <= n) && |p.disposition| <= n
    ensures |ReadHeaders(lines, p, counter).0.disposition| <= n
  {
    if lines != [] && lines[0] != "" {
      ReadHeadersSize(lines[1..], ReadHeader(p, lines[0]), counter + |lines[0]| + 2, n);
    }
  }

  lemma {:induction false} LineSizes(lines: seq<string>)
    ensures forall line | line in lines :: |line| <= |Join(lines, CRLF)|
  {
    if |lines| > 1 {
      LineSizes(lines[1..]);
      assert lines == [lines[0]] + lines[1..];
    }
  }

  lemma PartSize(raw: string)
    ensures var r := ParsePartSpec(raw); r.Ok? && r.value.Some? ==> |r.value.value.disposition| <= |raw|
  {
    if raw != "" {
      var lines := SplitSpec(raw, CRLF);
      JoinOfSplit(raw, CRLF);
      LineSizes(lines);
      hide SplitSpec, Join, ReadHeaders;
      ReadHeadersSize(lines, EMPTY_PART, 0, |raw|);
    }
  }

  lemma {:induction false} PartSizes(raws: seq<string>, n: nat)
    requires forall raw | raw in raws :: |raw| <= n
    ensures ParseAll(raws).Ok? ==> forall p | p in ParseAll(raws).value :: |p.disposition| <= n
  {
    if raws != [] {
      PartSize(raws[0]);
      hide ParsePartSpec;
      PartSizes(raws[1..], n);
    }
  }

  lemma RawSizes(body: string, starts: seq<nat>, lineSize: nat)
    requires starts != [] && forall i | 0 <= i < |starts| - 1 :: starts[i] + lineSize <= |body|
    ensures forall raw | raw in RawParts(body, starts, lineSize) :: |raw| <= |body|
  {
  }

  method Parse(body: string, boundary: string) returns (r: Result<seq<Part>>)
    requires |body| <= MAX_SIZE && |boundary| <= MAX_SIZE
    ensures r == ParseSpec(body, boundary)
    ensures r.Ok? ==> forall p | p in r.value :: |p.disposition| <= |body|
  {
    hide Find, BoundaryStarts, RawParts, ParseAll, Slice;
    if |body| == 0 || |boundary| == 0 {
      return Ok([]);
    }
    var boundaryLine := "--" + boundary + "\r\n";
    var boundaryLineLast := "--" + boundary + "--";
    var starts := FindBoundaries(body, boundaryLine);
    if |starts| == 0 {
      return Ok([]);
    }
    var lastPos := FindSize(body, boundaryLineLast, starts[|starts| - 1]);
    if lastPos == NPOS {
      return Ok([]);
    }
    starts := starts + [lastPos];
    RawSizes(body, starts, |boundaryLine|);
    PartSizes(RawParts(body, starts, |boundaryLine|), |body|);
    r := ParseParts(body, starts, |boundaryLine|);
  }
}
