/**
 When parsing a rendered multipart body gives back its parts
 (lib/malloy/core/html/multipart_parser.cpp).
 */
module MultipartRoundTrips {
  import opened Multipart
  import opened Text
  import opened Wrappers

  // ----- One part: what is cut differently is read differently --------------------

  /** The text is not skipped as empty, and is not read as that part. */
  predicate Misread(raw: string, p: Part) {
    match ParsePartSpec(raw)
    case Throws(_) => true
    case Ok(None) => false
    case Ok(Some(q)) => q != p
  }

  lemma {:induction false} RenderPrefix(lines: seq<string>, text: string, k: nat)
    requires k <= |text|
    ensures Size(lines) + 2 + k <= |RenderLines(lines, text)|
    ensures RenderLines(lines, text)[..Size(lines) + 2 + k] == RenderLines(lines, text[..k])
  {
    if lines != [] {
      RenderPrefix(lines[1..], text, k);
      var front, rest := lines[0] + CRLF, RenderLines(lines[1..], text);
      assert (front + rest)[..|front| + (Size(lines[1..]) + 2 + k)] == front + rest[..Size(lines[1..]) + 2 + k];
    }
  }

  lemma {:induction false} RenderAppend(lines: seq<string>, text: string, extra: string)
    ensures RenderLines(lines, text) + extra == RenderLines(lines, text + extra)
  {
    if lines == [] {
      assert CRLF + text + extra == CRLF + (text + extra);
    } else {
      RenderAppend(lines[1..], text, extra);
      var front, rest := lines[0] + CRLF, RenderLines(lines[1..], text);
      assert front + rest + extra == front + (rest + extra);
    }
  }

  /** A rendered part with more text behind it. */
  lemma LongRaw(p: Part, extra: string)
    requires IsPart(p) && extra != ""
    ensures Misread(RenderPart(p) + extra, p)
  {
    var text := p.content + CRLF + extra;
    RenderAppend(HeaderLines(p), p.content + CRLF, extra);
    ParseOfHeaders(p, text);
    hide ParsePartSpec, RenderLines, IsPart;
    assert |WithoutBreak(text)| == |p.content| + |extra|;
  }

  lemma FreePrefix(s: string, n: nat)
    requires !Contains(s, CRLF) && n <= |s|
    ensures !Contains(s[..n], CRLF)
  {
    forall i: nat
      ensures !OccursAt(s[..n], CRLF, i)
    {
      if i + 2 <= n {
        assert s[..n][i..i + 2] == s[i..i + 2];
        assert !OccursAt(s, CRLF, i);
      }
    }
  }

  /** Without an empty line, and without a line break at the end, there is no content to take. */
  lemma LinesThrow(lines: seq<string>)
    requires lines != [] && "" !in lines && forall line | line in lines :: !Contains(line, CRLF)
    ensures ParsePartSpec(Join(lines, CRLF)).Throws?
  {
    var raw := Join(lines, CRLF);
    LineBreakUnbordered();
    SplitOfJoin(lines, CRLF);
    assert lines[0] in lines && lines[|lines| - 1] in lines;
    JoinOfSplit(raw, CRLF);
    JoinNotEmpty(lines);
    hide ParsePartSpec, SplitSpec, Contains, Unbordered, Join;
    PartThrows(raw);
  }

  lemma JoinNotEmpty(lines: seq<string>)
    requires lines != [] && lines[0] != ""
    ensures Join(lines, CRLF) != ""
  {
  }

  /** A rendered part cut in its first header line. */
  lemma CutInFirst(p: Part, n: nat)
    requires IsPart(p) && 0 < n <= |DISPOSITION + p.disposition|
    ensures ParsePartSpec((DISPOSITION + p.disposition)[..n]).Throws?
  {
    var cut := (DISPOSITION + p.disposition)[..n];
    ConcatFree(DISPOSITION, p.disposition);
    FreePrefix(DISPOSITION + p.disposition, n);
    LinesThrow([cut]);
    hide *;
    JoinOfOne(cut, CRLF);
  }

  /** A rendered part cut in its second header line. */
  lemma CutInSecond(p: Part, n: nat)
    requires IsPart(p) && 0 < n <= |TYPE + p.contentType|
    ensures ParsePartSpec(DISPOSITION + p.disposition + CRLF + (TYPE + p.contentType)[..n]).Throws?
  {
    var first, cut := DISPOSITION + p.disposition, (TYPE + p.contentType)[..n];
    ConcatFree(DISPOSITION, p.disposition);
    ConcatFree(TYPE, p.contentType);
    FreePrefix(TYPE + p.contentType, n);
    LinesThrow([first, cut]);
    assert [first, cut][1..] == [cut];
    assert Join([first, cut], CRLF) == first + CRLF + cut;
  }

  /** A rendered part cut before a hyphen of its headers. */
  lemma CutInHeaders(p: Part, n: nat)
    requires IsPart(p) && 0 < n < Size(HeaderLines(p)) + 2 && n < |RenderPart(p)| && RenderPart(p)[n] == '-'
    ensures ParsePartSpec(RenderPart(p)[..n]).Throws?
  {
    var raw, first, second := RenderPart(p), DISPOSITION + p.disposition, TYPE + p.contentType;
    hide ParsePartSpec, IsPart;
    if p.contentType == "" {
      OneLine(first, p.content + CRLF);
      assert n < |first|;
      assert raw[..n] == first[..n];
      CutInFirst(p, n);
    } else {
      TwoLines(first, second, p.content + CRLF);
      if n < |first| {
        assert raw[..n] == first[..n];
        CutInFirst(p, n);
      } else {
        var k := n - |first| - 2;
        assert 0 <= k < |second|;
        assert k != 0 by { assert second[0] == 'C'; }
        assert raw[..n] == first + CRLF + second[..k];
        CutInSecond(p, k);
      }
    }
  }

  lemma OneLine(first: string, text: string)
    ensures RenderLines([first], text) == first + CRLF + (CRLF + text)
    ensures Size([first]) == |first| + 2
  {
    assert [first][1..] == [];
  }

  lemma TwoLines(first: string, second: string, text: string)
    ensures RenderLines([first, second], text) == first + CRLF + (second + CRLF + (CRLF + text))
    ensures Size([first, second]) == |first| + 2 + |second| + 2
    ensures [first] + [second] == [first, second]
  {
    assert [first, second][1..] == [second];
    OneLine(second, text);
  }

  /** A rendered part cut before a marker in it. */
  lemma ShortRaw(p: Part, n: nat)
    requires IsPart(p) && 0 < n && n + 5 <= |RenderPart(p)| && RenderPart(p)[n] == '-'
    ensures Misread(RenderPart(p)[..n], p)
  {
    var lines, text := HeaderLines(p), p.content + CRLF;
    hide ParsePartSpec, IsPart;
    if n < Size(lines) + 2 {
      CutInHeaders(p, n);
    } else {
      var k := n - Size(lines) - 2;
      TextOffset(lines, text);
      RenderPrefix(lines, text, k);
      ParseOfHeaders(p, text[..k]);
      hide RenderLines, HeaderLines, Size;
      assert |WithoutBreak(text[..k])| <= k < |p.content|;
    }
  }

  lemma WrongFirst(raws: seq<string>, parts: seq<Part>)
    requires raws != [] && parts != [] && Misread(raws[0], parts[0])
    ensures ParseAll(raws) != Ok(parts)
  {
    hide ParsePartSpec;
  }

  lemma RightFirst(raws: seq<string>, parts: seq<Part>)
    requires raws != [] && parts != [] && ParsePartSpec(raws[0]) == Ok(Some(parts[0]))
    ensures ParseAll(raws) == Ok(parts) <==> ParseAll(raws[1..]) == Ok(parts[1..])
  {
    hide ParsePartSpec;
    assert parts == [parts[0]] + parts[1..];
    if ParseAll(raws).Ok? {
      assert ParseAll(raws).value[1..] == ParseAll(raws[1..]).value;
    }
  }

  // ----- The whole body: where the markers are --------------------------------------

  /** A boundary line or a closing line: a line feed can only end it. */
  predicate IsMarker(m: string) {
    |m| >= 5 && m[0] == '-' && forall i | 0 <= i < |m| - 1 :: m[i] != '\n'
  }

  lemma Markers(boundary: string)
    requires IsBoundary(boundary)
    ensures IsMarker(BoundaryLine(boundary)) && IsMarker(LastBoundaryLine(boundary))
    ensures BoundaryLine(boundary) != "" && BoundaryLine(boundary)[|BoundaryLine(boundary)| - 1] == '\n'
  {
  }

  /** A text that ends in a line feed: a marker that starts in it lies in it. */
  lemma MarkerInside(text: string, rest: string, marker: string, j: nat)
    requires text != "" && text[|text| - 1] == '\n' && IsMarker(marker) && j < |text|
    ensures OccursAt(text + rest, marker, j) <==> OccursAt(text, marker, j)
  {
    if j + |marker| > |text| {
      CharDiffers(text + rest, marker, j, |text| - 1 - j);
    } else {
      assert text[j..j + |marker|] == (text + rest)[j..j + |marker|];
    }
  }

  lemma {:induction false} RenderEndsInLineFeed(lines: seq<string>, text: string)
    requires text != "" && text[|text| - 1] == '\n'
    ensures RenderLines(lines, text) != ""
    ensures RenderLines(lines, text)[|RenderLines(lines, text)| - 1] == '\n'
  {
    if lines != [] {
      RenderEndsInLineFeed(lines[1..], text);
    }
  }

  lemma PartEndsInLineFeed(p: Part)
    ensures RenderPart(p) != "" && RenderPart(p)[|RenderPart(p)| - 1] == '\n' && RenderPart(p)[0] == 'C'
  {
    RenderEndsInLineFeed(HeaderLines(p), p.content + CRLF);
    assert HeaderLines(p)[0][0] == 'C';
  }

  /** Nothing is found before `to`, so searching can start there. */
  lemma SkipTo(s: string, d: string, from: nat, to: nat)
    requires from <= to && forall j: nat | from <= j < to :: !OccursAt(s, d, j)
    ensures Find(s, d, from) == Find(s, d, to)
    decreases if from < to then to - from else 0
  {
    if from < to {
      SkipTo(s, d, from + 1, to);
    }
  }

  lemma OccursShifted(s: string, d: string, from: nat, j: nat)
    requires from <= j <= |s|
    ensures OccursAt(s, d, j) <==> OccursAt(s[from..], d, j - from)
  {
    if j + |d| <= |s| {
      SliceOfSlice(s, from, |s|, j - from, |d|);
    }
  }

  /** `MarkerInside` for a text that stands in a body. */
  lemma MarkerInText(body: string, start: nat, text: string, rest: string, marker: string, j: nat)
    requires start <= |body| && body[start..] == text + rest
    requires text != "" && text[|text| - 1] == '\n' && IsMarker(marker) && start <= j < start + |text|
    ensures OccursAt(body, marker, j) <==> OccursAt(text, marker, j - start)
  {
    hide OccursAt, IsMarker;
    assert j <= |body|;
    OccursShifted(body, marker, start, j);
    MarkerInside(text, rest, marker, j - start);
  }

  ghost predicate SameSearch(s: string, d: string, a: nat, b: nat) {
    Find(s, d, a) == Find(s, d, b)
  }

  lemma FoundHere(s: string, d: string, i: nat)
    requires OccursAt(s, d, i)
    ensures FoundAt(s, d, i, i)
  {
  }

  lemma FoundAlso(s: string, d: string, a: nat, b: nat, k: nat)
    requires SameSearch(s, d, a, b) && FoundAt(s, d, b, k)
    ensures FoundAt(s, d, a, k)
  {
    hide Find;
  }

  lemma FoundMeans(s: string, d: string, from: nat, k: nat)
    requires FoundAt(s, d, from, k)
    ensures OccursAt(s, d, k) && from <= k && k + |d| <= |s|
  {
    hide Find, OccursAt;
  }

  lemma FoundFirst(s: string, d: string, from: nat, i: nat) returns (k: nat)
    requires OccursAt(s, d, i) && from <= i
    ensures FoundAt(s, d, from, k) && k <= i
  {
    hide Find, OccursAt;
    assert Find(s, d, from).Some? && Find(s, d, from).value <= i;
    k := Find(s, d, from).value;
  }

  /** A search from the start of a text finds a marker in it first. */
  lemma FoundInText(body: string, start: nat, text: string, rest: string, marker: string) returns (k: nat)
    requires start <= |body| && body[start..] == text + rest
    requires text != "" && text[|text| - 1] == '\n' && IsMarker(marker) && Contains(text, marker)
    ensures start <= k && FoundAt(body, marker, start, k) && OccursAt(text, marker, k - start)
  {
    var i: nat :| OccursAt(text, marker, i);
    assert |marker| >= 5;
    hide OccursAt, IsMarker, FoundAt, Contains;
    OccursBefore(text, marker, i);
    MarkerInText(body, start, text, rest, marker, start + i);
    k := FoundFirst(body, marker, start, start + i);
    FoundMeans(body, marker, start, k);
    MarkerInText(body, start, text, rest, marker, k);
  }

  /** Or, if there is none, goes on behind it. */
  lemma NotFoundInText(body: string, start: nat, text: string, rest: string, marker: string)
    requires start <= |body| && body[start..] == text + rest
    requires text != "" && text[|text| - 1] == '\n' && IsMarker(marker) && !Contains(text, marker)
    ensures SameSearch(body, marker, start, start + |text|)
  {
    hide OccursAt, IsMarker, Find;
    forall j: nat | start <= j < start + |text|
      ensures !OccursAt(body, marker, j)
    {
      MarkerInText(body, start, text, rest, marker, j);
    }
    SkipTo(body, marker, start, start + |text|);
  }

  lemma OccursBefore(s: string, d: string, i: nat)
    requires OccursAt(s, d, i)
    ensures i + |d| <= |s|
    ensures d != "" ==> s[i] == d[0]
  {
    if d != "" {
      assert s[i] == s[i..i + |d|][0];
    }
  }

  /** The closing line is not found in a boundary line, which is as long but ends in a line feed. */
  lemma NoClosingInLine(boundary: string)
    requires IsBoundary(boundary)
    ensures !Contains(BoundaryLine(boundary), LastBoundaryLine(boundary))
  {
    var line, last := BoundaryLine(boundary), LastBoundaryLine(boundary);
    assert line[|line| - 1] == '\n' && last[|last| - 1] == '-' && |line| == |last|;
    forall i: nat
      ensures !OccursAt(line, last, i)
    {
      if i == 0 {
        CharDiffers(line, last, 0, |line| - 1);
      }
    }
  }

  // ----- The whole body: what is rendered where -------------------------------------

  /** Positions of the boundary lines of a rendering that starts at `from`, and of its closing line. */
  function Offsets(from: nat, parts: seq<Part>, boundary: string): (r: seq<nat>)
    ensures |r| == |parts| + 1 && r[0] == from
    decreases |parts|
  {
    if parts == [] then [from]
    else [from] + Offsets(Next(from, parts[0], boundary), parts[1..], boundary)
  }

  /** Where a part whose boundary line is at `from` ends. */
  function Next(from: nat, p: Part, boundary: string): nat {
    from + |BoundaryLine(boundary)| + |RenderPart(p)|
  }

  /** `body` from `from` on is the rendering of `parts` followed by `epilogue`. */
  ghost predicate RenderedAt(body: string, from: nat, parts: seq<Part>, boundary: string, epilogue: string) {
    from <= |body| && body[from..] == Render(parts, boundary) + epilogue
  }

  lemma FirstPartAt(body: string, from: nat, parts: seq<Part>, boundary: string, epilogue: string)
    requires parts != [] && RenderedAt(body, from, parts, boundary, epilogue)
    ensures RenderedAt(body, Next(from, parts[0], boundary), parts[1..], boundary, epilogue)
    ensures OccursAt(body, BoundaryLine(boundary), from)
    ensures body[from + |BoundaryLine(boundary)|..Next(from, parts[0], boundary)] == RenderPart(parts[0])
    ensures body[from..] == BoundaryLine(boundary) + (RenderPart(parts[0]) + (Render(parts[1..], boundary) + epilogue))
    ensures body[from + |BoundaryLine(boundary)|..] == RenderPart(parts[0]) + (Render(parts[1..], boundary) + epilogue)
  {
    var line, raw := BoundaryLine(boundary), RenderPart(parts[0]);
    var rest := Render(parts[1..], boundary) + epilogue;
    RenderApart(parts, boundary, epilogue);
    hide BoundaryLine, RenderPart, Render;
    SplitThree(body, from, line, raw, rest);
  }

  lemma RenderApart(parts: seq<Part>, boundary: string, epilogue: string)
    requires parts != []
    ensures Render(parts, boundary) + epilogue
            == BoundaryLine(boundary) + (RenderPart(parts[0]) + (Render(parts[1..], boundary) + epilogue))
  {
    hide BoundaryLine, RenderPart;
    Reassociate(BoundaryLine(boundary), RenderPart(parts[0]), Render(parts[1..], boundary), epilogue);
  }

  lemma Reassociate(a: string, b: string, c: string, d: string)
    ensures a + b + c + d == a + (b + (c + d))
  {
  }

  lemma SplitThree(s: string, from: nat, a: string, b: string, c: string)
    requires from <= |s| && s[from..] == a + (b + c)
    ensures from + |a| + |b| <= |s|
    ensures s[from..from + |a|] == a
    ensures s[from + |a|..from + |a| + |b|] == b
    ensures s[from + |a|..] == b + c
    ensures s[from + |a| + |b|..] == c
  {
    var t := s[from..];
    assert s[from..from + |a|] == t[..|a|];
    assert s[from + |a|..from + |a| + |b|] == t[|a|..|a| + |b|];
    assert s[from + |a|..] == t[|a|..];
    assert s[from + |a| + |b|..] == t[|a| + |b|..];
  }

  lemma NextAt(body: string, from: nat, parts: seq<Part>, boundary: string, epilogue: string)
    requires parts != [] && RenderedAt(body, from, parts, boundary, epilogue)
    ensures Next(from, parts[0], boundary) <= |body|
    ensures RenderedAt(body, Next(from, parts[0], boundary), parts[1..], boundary, epilogue)
  {
    FirstPartAt(body, from, parts, boundary, epilogue);
  }

  lemma RawAt(body: string, from: nat, parts: seq<Part>, boundary: string, epilogue: string)
    requires parts != [] && RenderedAt(body, from, parts, boundary, epilogue)
    ensures from + |BoundaryLine(boundary)| <= |body|
    ensures body[from + |BoundaryLine(boundary)|..] == RenderPart(parts[0]) + (Render(parts[1..], boundary) + epilogue)
  {
    FirstPartAt(body, from, parts, boundary, epilogue);
  }

  lemma LineAt(body: string, from: nat, parts: seq<Part>, boundary: string, epilogue: string)
    requires parts != [] && RenderedAt(body, from, parts, boundary, epilogue)
    ensures from <= |body| && OccursAt(body, BoundaryLine(boundary), from)
    ensures body[from..] == BoundaryLine(boundary) + (RenderPart(parts[0]) + (Render(parts[1..], boundary) + epilogue))
  {
    FirstPartAt(body, from, parts, boundary, epilogue);
  }

  /** Behind its boundary line, a search meets the markers in a part before all others. */
  lemma InFirst(body: string, from: nat, parts: seq<Part>, boundary: string, epilogue: string, marker: string)
    returns (k: nat)
    requires parts != [] && RenderedAt(body, from, parts, boundary, epilogue) && IsMarker(marker)
    requires Contains(RenderPart(parts[0]), marker)
    ensures var start := from + |BoundaryLine(boundary)|;
            start <= k && FoundAt(body, marker, start, k) && OccursAt(RenderPart(parts[0]), marker, k - start)
  {
    hide BoundaryLine, RenderedAt, RenderPart, Render, IsMarker, Contains, FoundAt, OccursAt;
    RawAt(body, from, parts, boundary, epilogue);
    PartEndsInLineFeed(parts[0]);
    var rest := Render(parts[1..], boundary) + epilogue;
    k := FoundInText(body, from + |BoundaryLine(boundary)|, RenderPart(parts[0]), rest, marker);
  }

  lemma NotInFirst(body: string, from: nat, parts: seq<Part>, boundary: string, epilogue: string, marker: string)
    requires parts != [] && RenderedAt(body, from, parts, boundary, epilogue) && IsMarker(marker)
    requires !Contains(RenderPart(parts[0]), marker)
    ensures SameSearch(body, marker, from + |BoundaryLine(boundary)|, Next(from, parts[0], boundary))
  {
    hide BoundaryLine, RenderedAt, RenderPart, Render, IsMarker, Contains, SameSearch;
    RawAt(body, from, parts, boundary, epilogue);
    PartEndsInLineFeed(parts[0]);
    var rest := Render(parts[1..], boundary) + epilogue;
    NotFoundInText(body, from + |BoundaryLine(boundary)|, RenderPart(parts[0]), rest, marker);
  }

  /** The closing line is not found in the boundary line of a part. */
  lemma ClosingBehindLine(body: string, from: nat, parts: seq<Part>, boundary: string, epilogue: string)
    requires parts != [] && RenderedAt(body, from, parts, boundary, epilogue) && IsBoundary(boundary)
    ensures SameSearch(body, LastBoundaryLine(boundary), from, from + |BoundaryLine(boundary)|)
  {
    hide BoundaryLine, LastBoundaryLine, Contains, SameSearch, RenderedAt, IsBoundary, IsMarker, Render, RenderPart;
    LineAt(body, from, parts, boundary, epilogue);
    Markers(boundary);
    NoClosingInLine(boundary);
    var rest := RenderPart(parts[0]) + (Render(parts[1..], boundary) + epilogue);
    NotFoundInText(body, from, BoundaryLine(boundary), rest, LastBoundaryLine(boundary));
  }

  /** The closing line does not start with, and is not followed by, anything that completes a boundary line. */
  ghost predicate CleanEnd(boundary: string, epilogue: string) {
    !Contains(LastBoundaryLine(boundary) + epilogue, BoundaryLine(boundary))
  }

  /** Where the rendering ends, there is the closing line; a boundary line is found only in an unclean end. */
  lemma AtTheEnd(body: string, from: nat, boundary: string, epilogue: string)
    requires RenderedAt(body, from, [], boundary, epilogue)
    ensures OccursAt(body, LastBoundaryLine(boundary), from)
    ensures CleanEnd(boundary, epilogue) <==> Find(body, BoundaryLine(boundary), from).None?
    ensures !OccursAt(body, BoundaryLine(boundary), from)
  {
    var line, last := BoundaryLine(boundary), LastBoundaryLine(boundary);
    assert body[from..from + |last|] == body[from..][..|last|] == last;
    assert line[|line| - 1] == '\n' && last[|last| - 1] == '-' && |line| == |last|;
    assert body[from + |last| - 1] == body[from..from + |last|][|last| - 1];
    CharDiffers(body, line, from, |line| - 1);
    hide LastBoundaryLine, BoundaryLine, OccursAt;
    ContainedBehind(body, line, from, last + epilogue);
  }

  lemma ContainedBehind(s: string, d: string, from: nat, t: string)
    requires from <= |s| && s[from..] == t
    ensures Find(s, d, from).None? <==> !Contains(t, d)
  {
    hide OccursAt;
    if Find(s, d, from).Some? {
      OccursShifted(s, d, from, Find(s, d, from).value);
    } else {
      forall i: nat
        ensures !OccursAt(t, d, i)
      {
        if from + i <= |s| {
          OccursShifted(s, d, from, from + i);
        } else {
          OccursNowhere(t, d, i);
        }
      }
    }
  }

  lemma OccursNowhere(s: string, d: string, i: nat)
    requires i > |s|
    ensures !OccursAt(s, d, i)
  {
  }

  lemma SliceExact(s: string, a: nat, b: nat)
    requires a <= b <= |s|
    ensures Slice(s, a, b - a) == s[a..b]
  {
  }

  ghost predicate LinesFit(body: string, starts: seq<nat>, lineSize: nat) {
    starts != [] && forall i | 0 <= i < |starts| - 1 :: starts[i] + lineSize <= |body|
  }

  lemma LinesFitCons(body: string, from: nat, starts: seq<nat>, lineSize: nat)
    requires LinesFit(body, starts, lineSize) && from + lineSize <= starts[0] <= |body|
    ensures LinesFit(body, [from] + starts, lineSize)
  {
  }

  lemma RawPartsCons(body: string, from: nat, starts: seq<nat>, lineSize: nat, raw: string, raws: seq<string>)
    requires LinesFit(body, starts, lineSize) && from + lineSize <= starts[0] <= |body|
    requires body[from + lineSize..starts[0]] == raw && RawParts(body, starts, lineSize) == raws
    ensures LinesFit(body, [from] + starts, lineSize) && RawParts(body, [from] + starts, lineSize) == [raw] + raws
  {
    LinesFitCons(body, from, starts, lineSize);
    var cut := RawParts(body, [from] + starts, lineSize);
    forall i | 0 <= i < |cut|
      ensures cut[i] == ([raw] + raws)[i]
    {
      RawPartBehind(body, from, starts, lineSize, raw, i);
    }
  }

  lemma RawPartBehind(body: string, from: nat, starts: seq<nat>, lineSize: nat, raw: string, i: nat)
    requires LinesFit(body, starts, lineSize) && LinesFit(body, [from] + starts, lineSize) && i < |starts|
    requires from + lineSize <= starts[0] <= |body| && body[from + lineSize..starts[0]] == raw
    ensures RawParts(body, [from] + starts, lineSize)[i] ==
            if i == 0 then raw else RawParts(body, starts, lineSize)[i - 1]
  {
    hide Slice, RawParts;
    RawPartAt(body, [from] + starts, lineSize, i);
    if i == 0 {
      SliceExact(body, from + lineSize, starts[0]);
    } else {
      RawPartAt(body, starts, lineSize, i - 1);
    }
  }

  lemma RawPartAt(body: string, starts: seq<nat>, lineSize: nat, i: nat)
    requires LinesFit(body, starts, lineSize) && i < |starts| - 1
    ensures RawParts(body, starts, lineSize)[i]
            == Slice(body, starts[i] + lineSize, starts[i + 1] as int - (starts[i] + lineSize))
  {
  }

  // ----- The whole body: when parsing undoes rendering -------------------------------

  /**
   No part contains a boundary line, the last one no closing line, and none is
   completed behind the closing line. A part may well contain the boundary.
   */
  ghost predicate ReadsBack(parts: seq<Part>, boundary: string, epilogue: string) {
    && CleanEnd(boundary, epilogue)
    && (forall i | 0 <= i < |parts| :: !Contains(RenderPart(parts[i]), BoundaryLine(boundary)))
    && (parts != [] ==> !Contains(RenderPart(parts[|parts| - 1]), LastBoundaryLine(boundary)))
  }

  ghost predicate AreParts(parts: seq<Part>) {
    forall i | 0 <= i < |parts| :: IsPart(parts[i])
  }

  lemma SameStarts(body: string, line: string, a: nat, b: nat)
    requires line != "" && SameSearch(body, line, a, b)
    ensures BoundaryStarts(body, line, a) == BoundaryStarts(body, line, b)
  {
    hide Find;
  }

  lemma LineNotEmpty(boundary: string)
    ensures BoundaryLine(boundary) != ""
  {
  }

  /** A rendered boundary line is the first one the search finds, and goes on behind. */
  lemma StartsWithPart(body: string, from: nat, parts: seq<Part>, boundary: string, epilogue: string)
    requires parts != [] && RenderedAt(body, from, parts, boundary, epilogue)
    ensures var line := BoundaryLine(boundary);
            BoundaryStarts(body, line, from) == [from] + BoundaryStarts(body, line, from + |line|)
  {
    hide RenderedAt, OccursAt, FoundAt, BoundaryStarts, BoundaryLine, Render, RenderPart;
    LineAt(body, from, parts, boundary, epilogue);
    LineNotEmpty(boundary);
    FoundHere(body, BoundaryLine(boundary), from);
    FirstBoundary(body, BoundaryLine(boundary), from, from);
  }

  lemma StartsStep(body: string, from: nat, parts: seq<Part>, boundary: string, epilogue: string)
    requires parts != [] && RenderedAt(body, from, parts, boundary, epilogue) && IsBoundary(boundary)
    requires !Contains(RenderPart(parts[0]), BoundaryLine(boundary))
    ensures var line := BoundaryLine(boundary);
            && line != ""
            && BoundaryStarts(body, line, from)
               == [from] + BoundaryStarts(body, line, Next(from, parts[0], boundary))
  {
    hide *;
    Markers(boundary);
    LineNotEmpty(boundary);
    NotInFirst(body, from, parts, boundary, epilogue, BoundaryLine(boundary));
    StartsWithPart(body, from, parts, boundary, epilogue);
    SameStarts(body, BoundaryLine(boundary), from + |BoundaryLine(boundary)|, Next(from, parts[0], boundary));
  }

  lemma StartsEnd(body: string, from: nat, boundary: string, epilogue: string)
    requires RenderedAt(body, from, [], boundary, epilogue) && CleanEnd(boundary, epilogue)
    ensures BoundaryLine(boundary) != "" && BoundaryStarts(body, BoundaryLine(boundary), from) == []
  {
    hide *;
    AtTheEnd(body, from, boundary, epilogue);
    LineNotEmpty(boundary);
    NoBoundaryLeft(body, BoundaryLine(boundary), from);
  }

  /** The search finds the boundary lines that were rendered and no others. */
  lemma {:induction false} StartsOfRender(body: string, from: nat, parts: seq<Part>, boundary: string, epilogue: string)
    requires RenderedAt(body, from, parts, boundary, epilogue)
    requires IsBoundary(boundary) && CleanEnd(boundary, epilogue)
    requires forall i | 0 <= i < |parts| :: !Contains(RenderPart(parts[i]), BoundaryLine(boundary))
    ensures BoundaryLine(boundary) != ""
    ensures BoundaryStarts(body, BoundaryLine(boundary), from) == Offsets(from, parts, boundary)[..|parts|]
    decreases |parts|
  {
    hide *;
    if parts == [] {
      StartsEnd(body, from, boundary, epilogue);
    } else {
      NextAt(body, from, parts, boundary, epilogue);
      StartsStep(body, from, parts, boundary, epilogue);
      StartsOfRender(body, Next(from, parts[0], boundary), parts[1..], boundary, epilogue);
      OffsetsApart(from, parts, boundary);
    }
  }

  lemma OffsetsApart(from: nat, parts: seq<Part>, boundary: string)
    requires parts != []
    ensures Offsets(from, parts, boundary) == [from] + Offsets(Next(from, parts[0], boundary), parts[1..], boundary)
    ensures Offsets(from, parts, boundary)[..|parts|]
            == [from] + Offsets(Next(from, parts[0], boundary), parts[1..], boundary)[..|parts| - 1]
  {
  }

  lemma OffsetsBelow(from: nat, parts: seq<Part>, boundary: string, i: nat)
    requires parts != [] && 0 < i <= |parts|
    ensures Offsets(from, parts, boundary)[i] == Offsets(Next(from, parts[0], boundary), parts[1..], boundary)[i - 1]
  {
  }

  lemma ClosingOfLast(body: string, from: nat, parts: seq<Part>, boundary: string, epilogue: string)
    requires |parts| == 1 && RenderedAt(body, from, parts, boundary, epilogue) && IsBoundary(boundary)
    requires !Contains(RenderPart(parts[0]), LastBoundaryLine(boundary))
    ensures FoundAt(body, LastBoundaryLine(boundary), from, Next(from, parts[0], boundary))
  {
    hide *;
    var last, next := LastBoundaryLine(boundary), Next(from, parts[0], boundary);
    Markers(boundary);
    ClosingBehindLine(body, from, parts, boundary, epilogue);
    NotInFirst(body, from, parts, boundary, epilogue, last);
    ClosingThere(body, from, parts, boundary, epilogue);
    FoundAlso(body, last, from + |BoundaryLine(boundary)|, next, next);
    FoundAlso(body, last, from, from + |BoundaryLine(boundary)|, next);
  }

  lemma ClosingThere(body: string, from: nat, parts: seq<Part>, boundary: string, epilogue: string)
    requires |parts| == 1 && RenderedAt(body, from, parts, boundary, epilogue)
    ensures FoundAt(body, LastBoundaryLine(boundary), Next(from, parts[0], boundary), Next(from, parts[0], boundary))
  {
    hide *;
    NextAt(body, from, parts, boundary, epilogue);
    assert parts[1..] == [];
    AtTheEnd(body, Next(from, parts[0], boundary), boundary, epilogue);
    FoundHere(body, LastBoundaryLine(boundary), Next(from, parts[0], boundary));
  }

  /** From the last boundary line on, the closing line is found where it was rendered. */
  lemma {:induction false} ClosingFound(body: string, from: nat, parts: seq<Part>, boundary: string, epilogue: string)
    requires parts != [] && RenderedAt(body, from, parts, boundary, epilogue) && IsBoundary(boundary)
    requires !Contains(RenderPart(parts[|parts| - 1]), LastBoundaryLine(boundary))
    ensures FoundAt(body, LastBoundaryLine(boundary), Offsets(from, parts, boundary)[|parts| - 1],
                    Offsets(from, parts, boundary)[|parts|])
    decreases |parts|
  {
    hide *;
    OffsetsBelow(from, parts, boundary, |parts|);
    if |parts| == 1 {
      ClosingOfLast(body, from, parts, boundary, epilogue);
    } else {
      OffsetsBelow(from, parts, boundary, |parts| - 1);
      NextAt(body, from, parts, boundary, epilogue);
      assert parts[1..][|parts| - 2] == parts[|parts| - 1];
      ClosingFound(body, Next(from, parts[0], boundary), parts[1..], boundary, epilogue);
    }
  }

  function RenderAll(parts: seq<Part>): (raws: seq<string>)
    ensures |raws| == |parts|
  {
    if parts == [] then [] else [RenderPart(parts[0])] + RenderAll(parts[1..])
  }

  lemma {:induction false} ParseOfRenderedParts(parts: seq<Part>)
    requires AreParts(parts)
    ensures ParseAll(RenderAll(parts)) == Ok(parts)
  {
    if parts != [] {
      ParseOfRenderedPart(parts[0]);
      ParseOfRenderedParts(parts[1..]);
      hide ParsePartSpec, RenderPart, IsPart;
      assert RenderAll(parts)[1..] == RenderAll(parts[1..]);
      RightFirst(RenderAll(parts), parts);
    }
  }

  /** The texts between the offsets are the rendered parts. */
  lemma {:induction false} RawPartsOfRender(body: string, from: nat, parts: seq<Part>, boundary: string,
                                            epilogue: string)
    requires RenderedAt(body, from, parts, boundary, epilogue)
    ensures LinesFit(body, Offsets(from, parts, boundary), |BoundaryLine(boundary)|)
    ensures RawParts(body, Offsets(from, parts, boundary), |BoundaryLine(boundary)|) == RenderAll(parts)
    decreases |parts|
  {
    if parts != [] {
      var lineSize := |BoundaryLine(boundary)|;
      var next := Next(from, parts[0], boundary);
      FirstPartAt(body, from, parts, boundary, epilogue);
      assert next <= |body|;
      var below := Offsets(next, parts[1..], boundary);
      OffsetsApart(from, parts, boundary);
      assert RenderAll(parts) == [RenderPart(parts[0])] + RenderAll(parts[1..]);
      hide RenderedAt, OccursAt, BoundaryLine, RenderPart, Slice, RawParts, Next, Offsets, RenderAll, LinesFit;
      RawPartsOfRender(body, next, parts[1..], boundary, epilogue);
      RawPartsCons(body, from, below, lineSize, RenderPart(parts[0]), RenderAll(parts[1..]));
    }
  }

  /** The parse, when boundary lines and the closing line behind them are found. */
  lemma ParseIs(body: string, boundary: string, starts: seq<nat>, closing: nat)
    requires body != "" && boundary != "" && starts == BoundaryStarts(body, BoundaryLine(boundary), 0) != []
    requires FoundAt(body, LastBoundaryLine(boundary), starts[|starts| - 1], closing)
    ensures LinesFit(body, starts + [closing], |BoundaryLine(boundary)|)
    ensures ParseSpec(body, boundary) == ParseAll(RawParts(body, starts + [closing], |BoundaryLine(boundary)|))
  {
    hide Find, BoundaryStarts, BoundaryLine, LastBoundaryLine, ParseAll, RawParts;
  }

  /** Parsing undoes rendering, whatever follows the closing line. */
  lemma ReadBack(parts: seq<Part>, boundary: string, epilogue: string)
    requires IsBoundary(boundary) && AreParts(parts) && ReadsBack(parts, boundary, epilogue)
    ensures ParseSpec(Render(parts, boundary) + epilogue, boundary) == Ok(parts)
  {
    hide RenderedAt, Render, ParseSpec, ParseAll, RawParts, BoundaryStarts, FoundAt, LinesFit, AreParts, Contains,
         RenderPart, BoundaryLine, LastBoundaryLine, CleanEnd, IsBoundary, Offsets, RenderAll;
    var body, all := Render(parts, boundary) + epilogue, Offsets(0, parts, boundary);
    RenderedWhole(parts, boundary, epilogue);
    StartsOfRender(body, 0, parts, boundary, epilogue);
    BoundaryNotEmpty(boundary);
    if parts != [] {
      ClosingFound(body, 0, parts, boundary, epilogue);
      ParseOfRenderedParts(parts);
      RawPartsOfRender(body, 0, parts, boundary, epilogue);
      assert all[..|parts|] + [all[|parts|]] == all;
      ParseIs(body, boundary, all[..|parts|], all[|parts|]);
    } else {
      ParseIsEmpty(body, boundary);
    }
  }

  lemma RenderedWhole(parts: seq<Part>, boundary: string, epilogue: string)
    ensures RenderedAt(Render(parts, boundary) + epilogue, 0, parts, boundary, epilogue)
    ensures Render(parts, boundary) + epilogue != ""
  {
    var body := Render(parts, boundary) + epilogue;
    RenderNotEmpty(parts, boundary);
    hide Render;
    assert body[0..] == body;
  }

  lemma BoundaryNotEmpty(boundary: string)
    requires IsBoundary(boundary)
    ensures boundary != "" && BoundaryLine(boundary) != ""
  {
  }

  lemma RenderNotEmpty(parts: seq<Part>, boundary: string)
    ensures Render(parts, boundary) != ""
  {
  }

  lemma PartAt(body: string, from: nat, parts: seq<Part>, boundary: string, epilogue: string)
    requires parts != [] && RenderedAt(body, from, parts, boundary, epilogue)
    ensures Next(from, parts[0], boundary) == from + |BoundaryLine(boundary)| + |RenderPart(parts[0])| <= |body|
    ensures body[from + |BoundaryLine(boundary)|..Next(from, parts[0], boundary)] == RenderPart(parts[0])
  {
    FirstPartAt(body, from, parts, boundary, epilogue);
  }

  lemma CutsFit(body: string, cuts: seq<nat>, lineSize: nat)
    requires LinesFit(body, cuts, lineSize)
    ensures cuts != [] && forall i | 0 <= i < |cuts| - 1 :: cuts[i] + lineSize <= |body|
  {
  }

  /** A cut that is not where the first part ends: it is misread. */
  lemma WrongCut(body: string, from: nat, parts: seq<Part>, boundary: string, epilogue: string, cuts: seq<nat>)
    requires parts != [] && RenderedAt(body, from, parts, boundary, epilogue) && AreParts(parts)
    requires cuts != [] && IsCut(body, from, parts, boundary, cuts[0])
    requires LinesFit(body, [from] + cuts, |BoundaryLine(boundary)|)
    ensures ParseAll(RawParts(body, [from] + cuts, |BoundaryLine(boundary)|)) != Ok(parts)
  {
    var start, cut := from + |BoundaryLine(boundary)|, cuts[0];
    hide RenderedAt, RenderPart, IsPart, ParseAll, RawParts, BoundaryLine, LinesFit, OccursAt, Render, Misread;
    PartAt(body, from, parts, boundary, epilogue);
    PartIn(parts);
    FitBelow(body, from, cuts, |BoundaryLine(boundary)|);
    CutsFit(body, cuts, |BoundaryLine(boundary)|);
    var raws := RawParts(body, cuts, |BoundaryLine(boundary)|);
    CutMisread(body, start, parts[0], cut);
    RawPartsCons(body, from, cuts, |BoundaryLine(boundary)|, body[start..cut], raws);
    WrongFirst([body[start..cut]] + raws, parts);
  }

  lemma CutMisread(body: string, start: nat, p: Part, cut: nat)
    requires IsPart(p) && start <= start + |RenderPart(p)| <= |body|
    requires body[start..start + |RenderPart(p)|] == RenderPart(p)
    requires start <= cut < |body| && body[cut] == '-'
    requires cut + 5 <= start + |RenderPart(p)| || start + |RenderPart(p)| < cut
    ensures Misread(body[start..cut], p)
  {
    var raw := RenderPart(p);
    PartEndsInLineFeed(p);
    hide RenderPart, IsPart, Misread;
    if cut < start + |raw| {
      var n := cut - start;
      assert raw[n] == body[cut] && raw[0] == body[start];
      assert body[start..cut] == raw[..n];
      ShortRaw(p, n);
    } else {
      assert body[start..cut] == raw + body[start + |raw|..cut];
      LongRaw(p, body[start + |raw|..cut]);
    }
  }

  /** A cut where the first part ends: what is left is read from there. */
  lemma RightCut(body: string, from: nat, parts: seq<Part>, boundary: string, epilogue: string, cuts: seq<nat>)
    requires parts != [] && RenderedAt(body, from, parts, boundary, epilogue) && IsPart(parts[0])
    requires LinesFit(body, cuts, |BoundaryLine(boundary)|) && cuts[0] == Next(from, parts[0], boundary)
    ensures var lineSize := |BoundaryLine(boundary)|;
            && LinesFit(body, [from] + cuts, lineSize)
            && (ParseAll(RawParts(body, [from] + cuts, lineSize)) == Ok(parts) <==>
                ParseAll(RawParts(body, cuts, lineSize)) == Ok(parts[1..]))
  {
    var raw, lineSize := RenderPart(parts[0]), |BoundaryLine(boundary)|;
    hide RenderedAt, RenderPart, IsPart, ParseAll, ParsePartSpec, RawParts, BoundaryLine, LinesFit, OccursAt, Render;
    PartAt(body, from, parts, boundary, epilogue);
    ParseOfRenderedPart(parts[0]);
    CutsFit(body, cuts, lineSize);
    var raws := RawParts(body, cuts, lineSize);
    RawPartsCons(body, from, cuts, lineSize, raw, raws);
    RightFirst([raw] + raws, parts);
    assert ([raw] + raws)[1..] == raws;
  }

  lemma FindOrNot(s: string, d: string, from: nat)
    ensures Find(s, d, from).None? || FoundAt(s, d, from, Find(s, d, from).value)
  {
  }

  /** A boundary line found in the first part: it is cut there. */
  lemma BoundaryInFirst(body: string, from: nat, parts: seq<Part>, boundary: string, epilogue: string)
    returns (k: nat)
    requires parts != [] && RenderedAt(body, from, parts, boundary, epilogue) && IsBoundary(boundary)
    requires Contains(RenderPart(parts[0]), BoundaryLine(boundary))
    ensures BoundaryLine(boundary) != "" && IsCut(body, from, parts, boundary, k) && k < Next(from, parts[0], boundary)
    ensures BoundaryStarts(body, BoundaryLine(boundary), from)
            == [from] + ([k] + BoundaryStarts(body, BoundaryLine(boundary), k + |BoundaryLine(boundary)|))
  {
    hide *;
    Markers(boundary);
    LineNotEmpty(boundary);
    k := InFirst(body, from, parts, boundary, epilogue, BoundaryLine(boundary));
    StartsWithPart(body, from, parts, boundary, epilogue);
    FirstBoundary(body, BoundaryLine(boundary), from + |BoundaryLine(boundary)|, k);
    CutInside(body, from, parts, boundary, epilogue, BoundaryLine(boundary), k);
  }

  /** A cut at a marker that is not where the first part ends. */
  predicate IsCut(body: string, from: nat, parts: seq<Part>, boundary: string, k: nat)
    requires parts != []
  {
    && from + |BoundaryLine(boundary)| <= k < |body| && body[k] == '-'
    && (k + 5 <= Next(from, parts[0], boundary) || Next(from, parts[0], boundary) < k)
  }

  lemma CutInside(body: string, from: nat, parts: seq<Part>, boundary: string, epilogue: string, marker: string, k: nat)
    requires parts != [] && RenderedAt(body, from, parts, boundary, epilogue) && IsMarker(marker)
    requires var start := from + |BoundaryLine(boundary)|;
             start <= k && OccursAt(RenderPart(parts[0]), marker, k - start)
    ensures IsCut(body, from, parts, boundary, k) && k < Next(from, parts[0], boundary)
  {
    hide *;
    var start, raw := from + |BoundaryLine(boundary)|, RenderPart(parts[0]);
    MarkerStarts(marker);
    PartAt(body, from, parts, boundary, epilogue);
    HyphenAt(body, start, raw, marker, k);
    CutIs(body, from, parts, boundary, k);
  }

  lemma MarkerStarts(marker: string)
    requires IsMarker(marker)
    ensures |marker| >= 5 && marker[0] == '-'
  {
  }

  /** A marker in a text that stands in a body. */
  lemma HyphenAt(body: string, start: nat, text: string, marker: string, k: nat)
    requires start + |text| <= |body| && body[start..start + |text|] == text
    requires |marker| >= 5 && marker[0] == '-' && start <= k && OccursAt(text, marker, k - start)
    ensures k + 5 <= start + |text| && body[k] == '-'
  {
    hide OccursAt;
    OccursBefore(text, marker, k - start);
    CharInSlice(body, start, start + |text|, k);
  }

  lemma CutIs(body: string, from: nat, parts: seq<Part>, boundary: string, k: nat)
    requires parts != [] && from + |BoundaryLine(boundary)| <= k < |body| && body[k] == '-'
    requires k + 5 <= Next(from, parts[0], boundary)
    ensures IsCut(body, from, parts, boundary, k)
  {
  }

  lemma CharInSlice(s: string, a: nat, b: nat, k: nat)
    requires a <= k < b <= |s|
    ensures s[a..b][k - a] == s[k]
  {
  }

  lemma CutBehind(body: string, from: nat, parts: seq<Part>, boundary: string, marker: string, k: nat)
    requires parts != [] && IsMarker(marker) && OccursAt(body, marker, k) && Next(from, parts[0], boundary) < k
    ensures IsCut(body, from, parts, boundary, k)
  {
    hide OccursAt, RenderPart, BoundaryLine;
    OccursBefore(body, marker, k);
  }

  /**
   The other direction, for a rendering in a body: if what is cut out at
   `starts` and at `closing` is read as the parts, they read back.
   */
  lemma {:induction false} OnlyIfReadsBack(body: string, from: nat, parts: seq<Part>, boundary: string,
                                           epilogue: string, starts: seq<nat>, closing: nat)
    requires parts != [] && RenderedAt(body, from, parts, boundary, epilogue)
    requires IsBoundary(boundary) && AreParts(parts) && BoundaryLine(boundary) != ""
    requires starts == BoundaryStarts(body, BoundaryLine(boundary), from) != []
    requires FoundAt(body, LastBoundaryLine(boundary), starts[|starts| - 1], closing)
    requires LinesFit(body, starts + [closing], |BoundaryLine(boundary)|)
    requires ParseAll(RawParts(body, starts + [closing], |BoundaryLine(boundary)|)) == Ok(parts)
    ensures ReadsBack(parts, boundary, epilogue)
    decreases |parts|
  {
    hide *;
    NoBoundaryInFirst(body, from, parts, boundary, epilogue, starts, closing);
    if |parts| == 1 {
      OnlyIfLast(body, from, parts, boundary, epilogue, starts, closing);
    } else {
      var below := BoundaryStarts(body, BoundaryLine(boundary), Next(from, parts[0], boundary));
      PartsBelow(body, from, parts, boundary, epilogue, starts, closing);
      NextAt(body, from, parts, boundary, epilogue);
      OnlyIfReadsBack(body, Next(from, parts[0], boundary), parts[1..], boundary, epilogue, below, closing);
      ReadsBackCons(parts, boundary, epilogue);
    }
  }

  lemma ReadsBackCons(parts: seq<Part>, boundary: string, epilogue: string)
    requires |parts| > 1 && ReadsBack(parts[1..], boundary, epilogue)
    requires !Contains(RenderPart(parts[0]), BoundaryLine(boundary))
    ensures ReadsBack(parts, boundary, epilogue)
  {
    hide Contains, RenderPart, BoundaryLine, LastBoundaryLine, CleanEnd;
    forall i | 0 <= i < |parts|
      ensures !Contains(RenderPart(parts[i]), BoundaryLine(boundary))
    {
      assert i > 0 ==> parts[i] == parts[1..][i - 1];
    }
    assert parts[1..][|parts| - 2] == parts[|parts| - 1];
  }

  lemma PartIn(parts: seq<Part>)
    requires parts != [] && AreParts(parts)
    ensures IsPart(parts[0]) && AreParts(parts[1..])
  {
    hide IsPart;
  }

  lemma NoBoundaryInFirst(body: string, from: nat, parts: seq<Part>, boundary: string, epilogue: string,
                          starts: seq<nat>, closing: nat)
    requires parts != [] && RenderedAt(body, from, parts, boundary, epilogue)
    requires IsBoundary(boundary) && AreParts(parts) && BoundaryLine(boundary) != ""
    requires starts == BoundaryStarts(body, BoundaryLine(boundary), from)
    requires LinesFit(body, starts + [closing], |BoundaryLine(boundary)|)
    requires ParseAll(RawParts(body, starts + [closing], |BoundaryLine(boundary)|)) == Ok(parts)
    ensures !Contains(RenderPart(parts[0]), BoundaryLine(boundary))
  {
    hide *;
    if Contains(RenderPart(parts[0]), BoundaryLine(boundary)) {
      var k := BoundaryInFirst(body, from, parts, boundary, epilogue);
      var below := BoundaryStarts(body, BoundaryLine(boundary), k + |BoundaryLine(boundary)|);
      assert starts + [closing] == [from] + ([k] + below + [closing]);
      WrongCut(body, from, parts, boundary, epilogue, [k] + below + [closing]);
      assert false;
    }
  }

  /** Behind a first part that has no boundary line. */
  lemma PartsBelow(body: string, from: nat, parts: seq<Part>, boundary: string, epilogue: string,
                   starts: seq<nat>, closing: nat)
    requires |parts| > 1 && RenderedAt(body, from, parts, boundary, epilogue)
    requires IsBoundary(boundary) && AreParts(parts) && BoundaryLine(boundary) != ""
    requires !Contains(RenderPart(parts[0]), BoundaryLine(boundary))
    requires starts == BoundaryStarts(body, BoundaryLine(boundary), from) != []
    requires FoundAt(body, LastBoundaryLine(boundary), starts[|starts| - 1], closing)
    requires LinesFit(body, starts + [closing], |BoundaryLine(boundary)|)
    requires ParseAll(RawParts(body, starts + [closing], |BoundaryLine(boundary)|)) == Ok(parts)
    ensures var below := BoundaryStarts(body, BoundaryLine(boundary), Next(from, parts[0], boundary));
            && below != []
            && FoundAt(body, LastBoundaryLine(boundary), below[|below| - 1], closing)
            && LinesFit(body, below + [closing], |BoundaryLine(boundary)|)
            && ParseAll(RawParts(body, below + [closing], |BoundaryLine(boundary)|)) == Ok(parts[1..])
            && AreParts(parts[1..])
  {
    hide *;
    var next := Next(from, parts[0], boundary);
    var below := BoundaryStarts(body, BoundaryLine(boundary), next);
    StartsStep(body, from, parts, boundary, epilogue);
    NextAt(body, from, parts, boundary, epilogue);
    StartsWithPart(body, next, parts[1..], boundary, epilogue);
    PartIn(parts);
    assert starts + [closing] == [from] + (below + [closing]);
    FitBelow(body, from, below + [closing], |BoundaryLine(boundary)|);
    RightCut(body, from, parts, boundary, epilogue, below + [closing]);
  }

  lemma FitBelow(body: string, from: nat, cuts: seq<nat>, lineSize: nat)
    requires cuts != [] && LinesFit(body, [from] + cuts, lineSize)
    ensures LinesFit(body, cuts, lineSize)
  {
    var all := [from] + cuts;
    assert forall i | 0 <= i < |cuts| :: cuts[i] == all[i + 1];
  }

  lemma OnlyIfLast(body: string, from: nat, parts: seq<Part>, boundary: string, epilogue: string,
                   starts: seq<nat>, closing: nat)
    requires |parts| == 1 && RenderedAt(body, from, parts, boundary, epilogue)
    requires IsBoundary(boundary) && AreParts(parts) && BoundaryLine(boundary) != ""
    requires !Contains(RenderPart(parts[0]), BoundaryLine(boundary))
    requires starts == BoundaryStarts(body, BoundaryLine(boundary), from) != []
    requires FoundAt(body, LastBoundaryLine(boundary), starts[|starts| - 1], closing)
    requires LinesFit(body, starts + [closing], |BoundaryLine(boundary)|)
    requires ParseAll(RawParts(body, starts + [closing], |BoundaryLine(boundary)|)) == Ok(parts)
    ensures ReadsBack(parts, boundary, epilogue)
  {
    hide *;
    StartsStep(body, from, parts, boundary, epilogue);
    var below := BoundaryStarts(body, BoundaryLine(boundary), Next(from, parts[0], boundary));
    assert starts + [closing] == [from] + (below + [closing]);
    EndIsClean(body, from, parts, boundary, epilogue, below, closing);
    assert starts == [from] && [from] + ([] + [closing]) == [from] + [closing];
    NoClosingInLast(body, from, parts, boundary, epilogue, closing);
    LoneReadsBack(parts, boundary, epilogue);
  }

  lemma LoneReadsBack(parts: seq<Part>, boundary: string, epilogue: string)
    requires |parts| == 1 && CleanEnd(boundary, epilogue)
    requires !Contains(RenderPart(parts[0]), BoundaryLine(boundary))
    requires !Contains(RenderPart(parts[0]), LastBoundaryLine(boundary))
    ensures ReadsBack(parts, boundary, epilogue)
  {
  }

  /** A boundary line behind the closing line would make the last part longer. */
  lemma EndIsClean(body: string, from: nat, parts: seq<Part>, boundary: string, epilogue: string,
                   below: seq<nat>, closing: nat)
    requires |parts| == 1 && RenderedAt(body, from, parts, boundary, epilogue)
    requires IsBoundary(boundary) && AreParts(parts) && BoundaryLine(boundary) != ""
    requires below == BoundaryStarts(body, BoundaryLine(boundary), Next(from, parts[0], boundary))
    requires LinesFit(body, [from] + (below + [closing]), |BoundaryLine(boundary)|)
    requires ParseAll(RawParts(body, [from] + (below + [closing]), |BoundaryLine(boundary)|)) == Ok(parts)
    ensures CleanEnd(boundary, epilogue) && below == []
  {
    hide *;
    var line, next := BoundaryLine(boundary), Next(from, parts[0], boundary);
    NextAt(body, from, parts, boundary, epilogue);
    assert parts[1..] == [];
    AtTheEnd(body, next, boundary, epilogue);
    Markers(boundary);
    if Find(body, line, next).None? {
      NoBoundaryLeft(body, line, next);
    } else {
      FindOrNot(body, line, next);
      var k := Find(body, line, next).value;
      FoundMeans(body, line, next, k);
      FirstBoundary(body, line, next, k);
      CutBehind(body, from, parts, boundary, line, k);
      WrongCut(body, from, parts, boundary, epilogue, below + [closing]);
      assert false;
    }
  }

  /** A closing line in the last part would make it shorter. */
  lemma NoClosingInLast(body: string, from: nat, parts: seq<Part>, boundary: string, epilogue: string, closing: nat)
    requires |parts| == 1 && RenderedAt(body, from, parts, boundary, epilogue)
    requires IsBoundary(boundary) && AreParts(parts)
    requires FoundAt(body, LastBoundaryLine(boundary), from, closing)
    requires LinesFit(body, [from] + [closing], |BoundaryLine(boundary)|)
    requires ParseAll(RawParts(body, [from] + [closing], |BoundaryLine(boundary)|)) == Ok(parts)
    ensures !Contains(RenderPart(parts[0]), LastBoundaryLine(boundary))
  {
    hide *;
    var last := LastBoundaryLine(boundary);
    if Contains(RenderPart(parts[0]), last) {
      Markers(boundary);
      var k := InFirst(body, from, parts, boundary, epilogue, last);
      ClosingBehindLine(body, from, parts, boundary, epilogue);
      FoundAlso(body, last, from, from + |BoundaryLine(boundary)|, k);
      FoundOnce(body, last, from, k, closing);
      CutInside(body, from, parts, boundary, epilogue, last, closing);
      WrongCut(body, from, parts, boundary, epilogue, [closing]);
      assert false;
    }
  }

  lemma FoundOnce(s: string, d: string, from: nat, k: nat, l: nat)
    requires FoundAt(s, d, from, k) && FoundAt(s, d, from, l)
    ensures k == l
  {
  }

  /** The parse without any boundary line or without a closing line gives no parts. */
  lemma ParseIsEmpty(body: string, boundary: string)
    requires body != "" && boundary != "" && BoundaryLine(boundary) != ""
    requires var starts := BoundaryStarts(body, BoundaryLine(boundary), 0);
             starts != [] ==> Find(body, LastBoundaryLine(boundary), starts[|starts| - 1]).None?
    ensures ParseSpec(body, boundary) == Ok([])
  {
    hide Find, BoundaryStarts, BoundaryLine, LastBoundaryLine, ParseAll, RawParts;
  }

  // ----- No parts ---------------------------------------------------------------------

  /**
   The body has no boundary line, or no closing line behind the last one, or
   all of them stand directly one behind the other.
   */
  ghost predicate NothingBetween(body: string, boundary: string) {
    var starts := BoundaryStarts(body, BoundaryLine(boundary), 0);
    starts == [] ||
    var closing := Find(body, LastBoundaryLine(boundary), starts[|starts| - 1]);
    closing.None? || InARow(starts + [closing.value], |BoundaryLine(boundary)|)
  }

  /** Each cut is where the line of the one before ends. */
  predicate InARow(cuts: seq<nat>, lineSize: nat) {
    |cuts| < 2 || (cuts[1] == cuts[0] + lineSize && InARow(cuts[1..], lineSize))
  }

  /** Or somewhere behind it. */
  predicate Ascending(body: string, cuts: seq<nat>, lineSize: nat) {
    && cuts != [] && cuts[0] <= |body|
    && (|cuts| == 1 || (cuts[0] + lineSize <= cuts[1] && Ascending(body, cuts[1..], lineSize)))
  }

  /** Only empty texts are no parts. */
  lemma {:induction false} NoneBetween(body: string, cuts: seq<nat>, lineSize: nat)
    requires Ascending(body, cuts, lineSize)
    ensures LinesFit(body, cuts, lineSize)
    ensures ParseAll(RawParts(body, cuts, lineSize)) == Ok([]) <==> InARow(cuts, lineSize)
  {
    if |cuts| > 1 {
      var raw := body[cuts[0] + lineSize..cuts[1]];
      NoneBetween(body, cuts[1..], lineSize);
      hide LinesFit, RawParts, ParseAll;
      RawPartsCons(body, cuts[0], cuts[1..], lineSize, raw, RawParts(body, cuts[1..], lineSize));
      assert [cuts[0]] + cuts[1..] == cuts;
      NoFirstPart(raw, RawParts(body, cuts[1..], lineSize));
    }
  }

  lemma NoFirstPart(raw: string, raws: seq<string>)
    ensures ParseAll([raw] + raws) == Ok([]) <==> raw == "" && ParseAll(raws) == Ok([])
  {
    assert ([raw] + raws)[1..] == raws;
    if raw != "" {
      assert ParsePartSpec(raw) != Ok(None);
      hide ParsePartSpec;
      var all := ParseAll([raw] + raws);
      assert all.Ok? ==> |all.value| == 1 + |ParseAll(raws).value|;
    } else if ParseAll(raws).Ok? {
      assert ParseAll([raw] + raws).value == [] + ParseAll(raws).value == ParseAll(raws).value;
    }
  }

  lemma {:induction false} StartsAscend(body: string, line: string, from: nat)
    requires line != "" && BoundaryStarts(body, line, from) != []
    ensures Ascending(body, BoundaryStarts(body, line, from), |line|)
    ensures var starts := BoundaryStarts(body, line, from);
            OccursAt(body, line, starts[|starts| - 1])
    decreases |body| - from
  {
    FindOrNot(body, line, from);
    hide *;
    var k := FirstStart(body, line, from);
    FoundMeans(body, line, from, k);
    FirstBoundary(body, line, from, k);
    var below := BoundaryStarts(body, line, k + |line|);
    if below != [] {
      StartsAscend(body, line, k + |line|);
    }
    AscendingCons(body, k, below, |line|);
  }

  lemma FirstStart(body: string, line: string, from: nat) returns (k: nat)
    requires line != "" && BoundaryStarts(body, line, from) != []
    ensures FoundAt(body, line, from, k)
  {
    hide Find;
    k := Find(body, line, from).value;
  }

  lemma AscendingCons(body: string, k: nat, below: seq<nat>, lineSize: nat)
    requires k <= |body| && (below == [] || (k + lineSize <= below[0] && Ascending(body, below, lineSize)))
    ensures Ascending(body, [k] + below, lineSize)
  {
    assert ([k] + below)[1..] == below;
  }

  lemma {:induction false} AscendingSnoc(body: string, cuts: seq<nat>, next: nat, lineSize: nat)
    requires Ascending(body, cuts, lineSize) && cuts[|cuts| - 1] + lineSize <= next <= |body|
    ensures Ascending(body, cuts + [next], lineSize)
  {
    if |cuts| == 1 {
      assert (cuts + [next])[1..] == [next];
    } else {
      AscendingSnoc(body, cuts[1..], next, lineSize);
      assert (cuts + [next])[1..] == cuts[1..] + [next];
    }
  }

  /** A closing line is not found in the boundary line where the search for it starts. */
  lemma ClosingBehind(body: string, boundary: string, start: nat, closing: nat)
    requires IsBoundary(boundary) && OccursAt(body, BoundaryLine(boundary), start)
    requires FoundAt(body, LastBoundaryLine(boundary), start, closing)
    ensures start + |BoundaryLine(boundary)| <= closing <= |body|
  {
    var line, last := BoundaryLine(boundary), LastBoundaryLine(boundary);
    OccursMeans(body, line, start);
    hide *;
    Markers(boundary);
    NoClosingInLine(boundary);
    FoundMeans(body, last, start, closing);
    NotContained(line, last, closing - start);
    if closing < start + |line| {
      MarkerInText(body, start, line, body[start + |line|..], last, closing);
    }
  }

  lemma OccursMeans(s: string, d: string, i: nat)
    requires OccursAt(s, d, i)
    ensures i + |d| <= |s| && s[i..] == d + s[i + |d|..]
  {
  }

  lemma NotContained(s: string, d: string, i: nat)
    requires !Contains(s, d)
    ensures !OccursAt(s, d, i)
  {
    hide OccursAt;
  }

  lemma NothingBetweenMeans(body: string, boundary: string, closing: nat)
    requires BoundaryLine(boundary) != ""
    requires BoundaryStarts(body, BoundaryLine(boundary), 0) != []
    requires var starts := BoundaryStarts(body, BoundaryLine(boundary), 0);
             FoundAt(body, LastBoundaryLine(boundary), starts[|starts| - 1], closing)
    ensures var starts := BoundaryStarts(body, BoundaryLine(boundary), 0);
            NothingBetween(body, boundary) <==> InARow(starts + [closing], |BoundaryLine(boundary)|)
  {
    hide Find, BoundaryLine, LastBoundaryLine, BoundaryStarts, InARow;
  }

  /** Exactly which bodies have no parts. */
  lemma NothingRead(body: string, boundary: string)
    ensures body == "" || boundary == "" ==> ParseSpec(body, boundary) == Ok([])
    ensures IsBoundary(boundary) && body != "" ==>
              (ParseSpec(body, boundary) == Ok([]) <==> NothingBetween(body, boundary))
  {
    if IsBoundary(boundary) && body != "" {
      NothingReadOf(body, boundary);
    }
  }

  lemma NothingReadOf(body: string, boundary: string)
    requires IsBoundary(boundary) && body != ""
    ensures ParseSpec(body, boundary) == Ok([]) <==> NothingBetween(body, boundary)
  {
    hide *;
    BoundaryNotEmpty(boundary);
    var line, last := BoundaryLine(boundary), LastBoundaryLine(boundary);
    var starts := BoundaryStarts(body, line, 0);
    if starts == [] || Find(body, last, starts[|starts| - 1]).None? {
      ParseIsEmpty(body, boundary);
      NothingToCut(body, boundary);
    } else {
      var closing := Find(body, last, starts[|starts| - 1]).value;
      FindOrNot(body, last, starts[|starts| - 1]);
      ParseIs(body, boundary, starts, closing);
      StartsAscend(body, line, 0);
      ClosingBehind(body, boundary, starts[|starts| - 1], closing);
      AscendingSnoc(body, starts, closing, |line|);
      NoneBetween(body, starts + [closing], |line|);
      NothingBetweenMeans(body, boundary, closing);
    }
  }

  lemma NothingToCut(body: string, boundary: string)
    requires BoundaryLine(boundary) != ""
    requires var starts := BoundaryStarts(body, BoundaryLine(boundary), 0);
             starts != [] ==> Find(body, LastBoundaryLine(boundary), starts[|starts| - 1]).None?
    ensures NothingBetween(body, boundary)
  {
    hide Find, BoundaryLine, LastBoundaryLine, BoundaryStarts;
  }

  // ----- Which headers and which texts count ------------------------------------------------

  /** The value is what stands behind the prefix in the last line that has it, and nothing if none has. */
  predicate IsLast(lines: seq<string>, prefix: string, value: string) {
    || (value == "" && forall i | 0 <= i < |lines| :: !(prefix <= lines[i]))
    || exists i | 0 <= i < |lines| ::
         prefix <= lines[i] && value == lines[i][|prefix|..] && NoneBehind(lines, prefix, i)
  }

  predicate NoneBehind(lines: seq<string>, prefix: string, i: nat) {
    forall j | i < j < |lines| :: !(prefix <= lines[j])
  }

  lemma LastSnoc(lines: seq<string>, line: string, prefix: string, value: string)
    ensures prefix <= line ==> IsLast(lines + [line], prefix, line[|prefix|..])
    ensures !(prefix <= line) && IsLast(lines, prefix, value) ==> IsLast(lines + [line], prefix, value)
  {
    var all := lines + [line];
    if prefix <= line {
      assert all[|lines|] == line && NoneBehind(all, prefix, |lines|);
    } else if IsLast(lines, prefix, value) {
      if i :| 0 <= i < |lines| && prefix <= lines[i] && value == lines[i][|prefix|..] && NoneBehind(lines, prefix, i) {
        assert all[i] == lines[i] && NoneBehind(all, prefix, i);
      }
    }
  }

  lemma {:induction false} ReadAllSnoc(lines: seq<string>, line: string, p: Part)
    ensures ReadAll(lines + [line], p) == ReadHeader(ReadAll(lines, p), line)
  {
    hide ReadHeader;
    if lines == [] {
      assert [line][1..] == [];
      assert ReadAll([line], p) == ReadAll([line][1..], ReadHeader(p, line));
    } else {
      ReadAllSnoc(lines[1..], line, ReadHeader(p, lines[0]));
      assert (lines + [line])[1..] == lines[1..] + [line];
    }
  }

  lemma {:induction false} ReadAllMeaning(lines: seq<string>)
    ensures IsLast(lines, "Content-Disposition: ", ReadAll(lines, EMPTY_PART).disposition)
    ensures IsLast(lines, "Content-Type: ", ReadAll(lines, EMPTY_PART).contentType)
  {
    if lines != [] {
      var front, line := lines[..|lines| - 1], lines[|lines| - 1];
      var p := ReadAll(front, EMPTY_PART);
      ReadAllMeaning(front);
      ReadAllSnoc(front, line, EMPTY_PART);
      assert front + [line] == lines;
      ReadHeaderMeaning(p, line);
      hide ReadAll, ReadHeader, IsLast;
      LastSnoc(front, line, "Content-Disposition: ", p.disposition);
      LastSnoc(front, line, "Content-Type: ", p.contentType);
    }
  }

  lemma ReadHeaderMeaning(p: Part, line: string)
    ensures "Content-Disposition: " <= line ==>
              ReadHeader(p, line) == p.(disposition := line[|"Content-Disposition: "|..]) && !("Content-Type: " <= line)
    ensures "Content-Type: " <= line ==>
              ReadHeader(p, line) == p.(contentType := line[|"Content-Type: "|..]) && !("Content-Disposition: " <= line)
    ensures !("Content-Disposition: " <= line) && !("Content-Type: " <= line) ==> ReadHeader(p, line) == p
  {
    assert "Content-Disposition: "[8] == 'D' && "Content-Type: "[8] == 'T';
  }

  /**
   Header lines in any order: the disposition and the type are those of the last
   lines that give them, and the content is the text without its line break.
   */
  lemma LastHeadersCount(lines: seq<string>, text: string) returns (p: Part)
    requires lines != [] && "" !in lines
    requires forall line | line in lines :: !Contains(line, CRLF)
    ensures ParsePartSpec(RenderLines(lines, text)) == Ok(Some(p))
    ensures IsLast(lines, "Content-Disposition: ", p.disposition) && IsLast(lines, "Content-Type: ", p.contentType)
    ensures p.content == if |text| < 2 then text else text[..|text| - 2]
  {
    ParseOfRenderedLines(lines, text);
    ReadAllMeaning(lines);
    p := ReadAll(lines, EMPTY_PART).(content := WithoutBreak(text));
  }

  predicate IsOther(line: string) {
    line != "" && !("Content-Disposition: " <= line) && !("Content-Type: " <= line)
  }

  lemma {:induction false} ReadAllWithout(a: seq<string>, line: string, b: seq<string>, p: Part)
    requires IsOther(line)
    ensures ReadAll(a + [line] + b, p) == ReadAll(a + b, p)
  {
    if a == [] {
      ReadHeaderMeaning(p, line);
      hide ReadHeader;
      assert ([] + [line] + b)[1..] == b && [] + b == b;
    } else {
      hide ReadHeader, IsOther;
      ReadAllWithout(a[1..], line, b, ReadHeader(p, a[0]));
      assert (a + [line] + b)[1..] == a[1..] + [line] + b;
      assert (a + b)[1..] == a[1..] + b;
    }
  }

  /** Any other header line, wherever it stands, changes nothing. */
  lemma OtherHeaderIgnored(a: seq<string>, line: string, b: seq<string>, text: string)
    requires a + b != [] && "" !in a + b && IsOther(line)
    requires forall l | l in a + b + [line] :: !Contains(l, CRLF)
    ensures ParsePartSpec(RenderLines(a + [line] + b, text)) == ParsePartSpec(RenderLines(a + b, text))
  {
    assert forall l | l in a + [line] + b :: l in a + b + [line];
    assert line != "";
    ReadAllWithout(a, line, b, EMPTY_PART);
    hide *;
    ParseOfRenderedLines(a + [line] + b, text);
    ParseOfRenderedLines(a + b, text);
  }

  /** Headers without a text behind them: there is no content. */
  lemma HeadersOnly(lines: seq<string>) returns (p: Part)
    requires lines != [] && "" !in lines
    requires forall line | line in lines :: !Contains(line, CRLF)
    ensures ParsePartSpec(Join(lines, CRLF) + CRLF) == Ok(Some(p))
    ensures IsLast(lines, "Content-Disposition: ", p.disposition) && IsLast(lines, "Content-Type: ", p.contentType)
    ensures p.content == ""
  {
    var raw := Join(lines, CRLF) + CRLF;
    HeaderLinesFound(lines);
    hide *;
    ReadNoEmptyLine(lines, EMPTY_PART, 0);
    SizeOfJoin(lines);
    ReadAllMeaning(lines);
    assert raw != "" && |raw| == Size(lines);
    p := ReadAll(lines, EMPTY_PART);
    ContentOf(raw, p, |raw|);
    ReadAllContent(lines, EMPTY_PART);
    NoContent(raw);
  }

  lemma HeaderLinesFound(lines: seq<string>)
    requires lines != [] && "" !in lines
    requires forall line | line in lines :: !Contains(line, CRLF)
    ensures SplitSpec(Join(lines, CRLF) + CRLF, CRLF) == lines && |CRLF| == 2
    ensures EMPTY_PART.content == ""
  {
    LineBreakUnbordered();
    NothingInEmpty();
    hide SplitSpec, Contains, Unbordered, Join;
    JoinSnocEmpty(lines, CRLF);
    assert lines[0] in lines;
    assert forall line | line in lines + [""] :: !Contains(line, CRLF);
    SplitOfJoin(lines + [""], CRLF);
    assert WithoutEmptyEnds(lines + [""]) == lines;
  }

  lemma NoContent(raw: string)
    ensures WithoutBreak(raw[|raw|..]) == ""
  {
  }

  lemma ContentOf(raw: string, p: Part, counter: nat)
    requires raw != "" && ReadHeaders(SplitSpec(raw, CRLF), EMPTY_PART, 0) == (p, counter) && counter <= |raw|
    ensures ParsePartSpec(raw) == Ok(Some(p.(content := WithoutBreak(raw[counter..]))))
  {
    hide ReadHeaders, SplitSpec;
    PartFromHeaders(raw, p, counter, raw[counter..]);
  }

  lemma {:induction false} ReadAllContent(lines: seq<string>, p: Part)
    ensures ReadAll(lines, p).content == p.content
  {
    if lines != [] {
      ReadAllContent(lines[1..], ReadHeader(p, lines[0]));
    }
  }

  lemma {:induction false} ReadNoEmptyLine(lines: seq<string>, p: Part, counter: nat)
    requires "" !in lines
    ensures ReadHeaders(lines, p, counter) == (ReadAll(lines, p), counter + Size(lines))
  {
    hide ReadHeader;
    if lines != [] {
      ReadNoEmptyLine(lines[1..], ReadHeader(p, lines[0]), counter + |lines[0]| + 2);
    }
  }

  /** A part without headers, which section 5.1 of RFC 2046 allows, loses its content. */
  lemma HeaderlessContentLost(text: string)
    requires IsOther(text) && !Contains(text, CRLF)
    ensures ParsePartSpec(CRLF + text + CRLF) == Ok(Some(Part("", "", "")))
  {
    var raw, lines := CRLF + text + CRLF, ["", text, ""];
    LineBreakUnbordered();
    NothingInEmpty();
    assert lines[1..] == [text, ""] && lines[1..][1..] == [""];
    assert Join([""], CRLF) == "";
    assert Join(lines[1..], CRLF) == text + CRLF + "";
    assert Join(lines, CRLF) == "" + CRLF + Join(lines[1..], CRLF);
    assert "" + CRLF + (text + CRLF + "") == raw;
    SplitOfJoin(lines, CRLF);
    assert lines[1..][..1] == [text] && [text][1..] == [];
    assert WithoutEmptyEnds(lines) == [text];
    ReadNoEmptyLine([text], EMPTY_PART, 0);
    ReadHeaderMeaning(EMPTY_PART, text);
    assert ReadAll([text], EMPTY_PART) == ReadAll([text][1..], ReadHeader(EMPTY_PART, text));
    hide SplitSpec, Contains, Join, ReadHeaders, ReadAll, ReadHeader;
    assert Size([text]) == |text| + 2;
    ContentOf(raw, EMPTY_PART, |text| + 2);
    assert |raw[|text| + 2..]| == 2;
  }

  /** The first text that is no part ends the parse, and one that is empty is passed over. */
  lemma {:induction false} AllTextsCount(raws: seq<string>)
    ensures ParseAll(raws).Ok? <==> forall i | 0 <= i < |raws| :: ParsePartSpec(raws[i]).Ok?
  {
    hide ParsePartSpec;
    if raws != [] {
      AllTextsCount(raws[1..]);
      assert raws == [raws[0]] + raws[1..];
    }
  }

  lemma {:induction false} EmptyTextPassedOver(a: seq<string>, b: seq<string>)
    ensures ParseAll(a + [""] + b) == ParseAll(a + b)
  {
    if a == [] {
      EmptyFirstText(b);
      assert [] + [""] + b == [""] + b && [] + b == b;
    } else {
      hide *;
      EmptyTextPassedOver(a[1..], b);
      SameBehind(a[0], a[1..] + [""] + b, a[1..] + b);
      FirstApart(a, [""], b);
    }
  }

  lemma FirstApart(a: seq<string>, x: seq<string>, b: seq<string>)
    requires a != []
    ensures a + x + b == [a[0]] + (a[1..] + x + b)
    ensures a + b == [a[0]] + (a[1..] + b)
  {
  }

  lemma EmptyFirstText(raws: seq<string>)
    ensures ParseAll([""] + raws) == ParseAll(raws)
  {
    assert ([""] + raws)[1..] == raws;
    assert ParsePartSpec("") == Ok(None);
    hide ParsePartSpec;
    if ParseAll(raws).Ok? {
      assert [] + ParseAll(raws).value == ParseAll(raws).value;
    }
  }

  lemma SameBehind(raw: string, a: seq<string>, b: seq<string>)
    requires ParseAll(a) == ParseAll(b)
    ensures ParseAll([raw] + a) == ParseAll([raw] + b)
  {
    hide ParsePartSpec;
    assert ([raw] + a)[1..] == a && ([raw] + b)[1..] == b;
  }

  // ----- What is read is a part ----------------------------------------------------------

  lemma HeaderKeeps(p: Part, line: string)
    requires IsPart(p) && !Contains(line, CRLF)
    ensures IsPart(ReadHeader(p, line))
  {
    if DISPOSITION <= line {
      FreeSlice(line, CRLF, |DISPOSITION|, |line| - |DISPOSITION|);
      assert Slice(line, |DISPOSITION|, |line| - |DISPOSITION|) == line[|DISPOSITION|..];
    } else if TYPE <= line {
      FreeSlice(line, CRLF, |TYPE|, |line| - |TYPE|);
      assert Slice(line, |TYPE|, |line| - |TYPE|) == line[|TYPE|..];
    }
    hide Contains;
  }

  lemma {:induction false} HeadersKeep(lines: seq<string>, p: Part, counter: nat)
    requires IsPart(p) && forall line | line in lines :: !Contains(line, CRLF)
    ensures IsPart(ReadHeaders(lines, p, counter).0)
  {
    hide Contains, IsPart, ReadHeader;
    if lines != [] && lines[0] != "" {
      HeaderKeeps(p, lines[0]);
      HeadersKeep(lines[1..], ReadHeader(p, lines[0]), counter + |lines[0]| + 2);
    }
  }

  lemma ReadIsPart(raw: string)
    ensures var r := ParsePartSpec(raw); r.Ok? && r.value.Some? ==> IsPart(r.value.value)
  {
    NothingInEmpty();
    SplitPiecesAreFree(raw, CRLF);
    hide Contains, SplitSpec, ReadHeaders;
    HeadersKeep(SplitSpec(raw, CRLF), EMPTY_PART, 0);
  }

  /** A rendered part is read back exactly when its headers have no line breaks. */
  lemma PartRoundTrip(p: Part)
    ensures ParsePartSpec(RenderPart(p)) == Ok(Some(p)) <==> IsPart(p)
  {
    ReadIsPart(RenderPart(p));
    hide *;
    if IsPart(p) {
      ParseOfRenderedPart(p);
    }
  }

  lemma {:induction false} ReadAreParts(raws: seq<string>)
    ensures ParseAll(raws).Ok? ==> AreParts(ParseAll(raws).value)
  {
    hide ParsePartSpec, IsPart;
    if raws != [] {
      ReadIsPart(raws[0]);
      ReadAreParts(raws[1..]);
    }
  }

  /** No header that is read has a line break. */
  lemma ParsedAreParts(body: string, boundary: string)
    ensures ParseSpec(body, boundary).Ok? ==> AreParts(ParseSpec(body, boundary).value)
  {
    var starts := BoundaryStarts(body, BoundaryLine(boundary), 0);
    hide IsPart, BoundaryLine, LastBoundaryLine, BoundaryStarts, ParseAll, RawParts;
    if body != "" && boundary != "" && starts != [] {
      var closing := Find(body, LastBoundaryLine(boundary), starts[|starts| - 1]);
      if closing.Some? {
        ReadAreParts(RawParts(body, starts + [closing.value], |BoundaryLine(boundary)|));
      }
    }
  }

  // ----- The exact condition ----------------------------------------------------------------

  /** Only such parts are read back. */
  lemma OnlyReadBack(parts: seq<Part>, boundary: string, epilogue: string)
    requires parts != [] && IsBoundary(boundary)
    requires ParseSpec(Render(parts, boundary) + epilogue, boundary) == Ok(parts)
    ensures AreParts(parts) && ReadsBack(parts, boundary, epilogue)
  {
    hide *;
    var body := Render(parts, boundary) + epilogue;
    ParsedAreParts(body, boundary);
    RenderedWhole(parts, boundary, epilogue);
    BoundaryNotEmpty(boundary);
    var starts := BoundaryStarts(body, BoundaryLine(boundary), 0);
    StartsWithPart(body, 0, parts, boundary, epilogue);
    if Find(body, LastBoundaryLine(boundary), starts[|starts| - 1]).None? {
      ParseIsEmpty(body, boundary);
      assert false;
    } else {
      var closing := Find(body, LastBoundaryLine(boundary), starts[|starts| - 1]).value;
      FindOrNot(body, LastBoundaryLine(boundary), starts[|starts| - 1]);
      ParseIs(body, boundary, starts, closing);
      OnlyIfReadsBack(body, 0, parts, boundary, epilogue, starts, closing);
    }
  }

  /**
   The rendered body gives back its parts: no header has a line break, no part
   contains a boundary line, the last one no closing line, and none is
   completed behind the closing line. For no parts at all, nothing may stand
   between boundary lines that are completed there.
   */
  ghost predicate IsReadBack(parts: seq<Part>, boundary: string, epilogue: string) {
    if parts == [] then NothingBetween(LastBoundaryLine(boundary) + epilogue, boundary)
    else AreParts(parts) && ReadsBack(parts, boundary, epilogue)
  }

  /** Parsing undoes rendering exactly when it may. */
  lemma ParseOfRender(parts: seq<Part>, boundary: string, epilogue: string)
    requires IsBoundary(boundary)
    ensures ParseSpec(Render(parts, boundary) + epilogue, boundary) == Ok(parts) <==>
            IsReadBack(parts, boundary, epilogue)
  {
    hide IsBoundary, ParseSpec, RenderPart, BoundaryLine, LastBoundaryLine, AreParts, ReadsBack, NothingBetween;
    if parts == [] {
      RenderNotEmpty(parts, boundary);
      NothingRead(LastBoundaryLine(boundary) + epilogue, boundary);
    } else {
      hide *;
      if ParseSpec(Render(parts, boundary) + epilogue, boundary) == Ok(parts) {
        OnlyReadBack(parts, boundary, epilogue);
      }
      if AreParts(parts) && ReadsBack(parts, boundary, epilogue) {
        ReadBack(parts, boundary, epilogue);
      }
      ReadBackMeans(parts, boundary, epilogue);
    }
  }

  lemma ReadBackMeans(parts: seq<Part>, boundary: string, epilogue: string)
    requires parts != []
    ensures IsReadBack(parts, boundary, epilogue) <==> AreParts(parts) && ReadsBack(parts, boundary, epilogue)
  {
  }

  /** In the letters of section 4 of RFC 7578. */
  lemma OnePartInFull(boundary: string, disposition: string, contentType: string, content: string)
    requires IsBoundary(boundary) && contentType != ""
    requires var p := Part(disposition, contentType, content);
             IsPart(p) && ReadsBack([p], boundary, "")
    ensures ParseSpec("--" + boundary + "\r\n" + ("Content-Disposition: " + disposition + "\r\n"
                      + ("Content-Type: " + contentType + "\r\n" + ("\r\n" + (content + "\r\n"))))
                      + ("--" + boundary + "--"), boundary)
            == Ok([Part(disposition, contentType, content)])
  {
    var p := Part(disposition, contentType, content);
    TwoLines(DISPOSITION + disposition, TYPE + contentType, content + CRLF);
    assert [p][1..] == [] && AreParts([p]);
    assert Render([p], boundary) == BoundaryLine(boundary) + RenderPart(p) + LastBoundaryLine(boundary);
    assert Render([p], boundary) + "" == Render([p], boundary);
    hide ReadsBack, ParseSpec, Render;
    ReadBack([p], boundary, "");
  }

  /** Parts that do not contain the boundary at all, as section 5.1.1 of RFC 2046 asks of their lines, are read back. */
  lemma BoundaryFreeReadsBack(parts: seq<Part>, boundary: string, epilogue: string)
    requires CleanEnd(boundary, epilogue)
    requires forall i | 0 <= i < |parts| :: !Contains(RenderPart(parts[i]), "--" + boundary)
    ensures ReadsBack(parts, boundary, epilogue)
  {
    forall i, j: nat | 0 <= i < |parts|
      ensures !OccursAt(RenderPart(parts[i]), BoundaryLine(boundary), j)
      ensures !OccursAt(RenderPart(parts[i]), LastBoundaryLine(boundary), j)
    {
      PrefixOccurs(RenderPart(parts[i]), "--" + boundary, CRLF, j);
      PrefixOccurs(RenderPart(parts[i]), "--" + boundary, "--", j);
    }
  }

  /** Nothing at all may follow the closing line, whatever the boundary. */
  lemma EmptyEpilogueIsClean(boundary: string)
    requires IsBoundary(boundary)
    ensures CleanEnd(boundary, "")
  {
    var line, last := BoundaryLine(boundary), LastBoundaryLine(boundary);
    assert last + "" == last && line[|line| - 1] == '\n' && last[|last| - 1] == '-';
    forall i: nat
      ensures !OccursAt(last, line, i)
    {
      assert i + |line| <= |last| ==> last[i..i + |line|] == last;
    }
  }

  lemma PrefixOccurs(s: string, a: string, b: string, j: nat)
    ensures OccursAt(s, a + b, j) ==> OccursAt(s, a, j)
  {
    if j + |a + b| <= |s| {
      assert s[j..j + |a|] == s[j..j + |a + b|][..|a|];
      assert (a + b)[..|a|] == a;
    }
  }

  /**
   The boundary in the middle of a line, which section 5.1.1 of RFC 2046 allows:
   a content that ends in it is not read back.
   */
  lemma MidLineBoundary(text: string, boundary: string)
    requires IsBoundary(boundary)
    ensures var p := Part("form-data", "", text + "--" + boundary);
            ParseSpec(Render([p], boundary), boundary) != Ok([p])
  {
    var p := Part("form-data", "", text + "--" + boundary);
    OnePart(p.content);
    ContainsLine(p, text, boundary);
    hide IsPart, ParseSpec, Contains, RenderPart, BoundaryLine;
    assert Render([p], boundary) + "" == Render([p], boundary);
    assert !ReadsBack([p], boundary, "") by {
      assert [p][0] == p;
    }
    hide *;
    ParseOfRender([p], boundary, "");
  }

  lemma OnePart(content: string)
    ensures AreParts([Part("form-data", "", content)])
  {
    NothingInEmpty();
    forall i: nat
      ensures !OccursAt("form-data", CRLF, i)
    {
      if i < |"form-data"| {
        CharDiffers("form-data", CRLF, i, 0);
      }
    }
  }

  lemma ContainsLine(p: Part, text: string, boundary: string)
    requires p == Part("form-data", "", text + "--" + boundary)
    ensures Contains(RenderPart(p), BoundaryLine(boundary))
  {
    var raw, line := RenderPart(p), BoundaryLine(boundary);
    var front := DISPOSITION + "form-data" + CRLF + CRLF + text;
    OneLine(DISPOSITION + p.disposition, p.content + CRLF);
    assert raw == front + line;
    assert raw[|front|..|front| + |line|] == line;
    assert OccursAt(raw, line, |front|);
  }
}
