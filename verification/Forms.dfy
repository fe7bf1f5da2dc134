/** Decoding of submitted forms (lib/malloy/core/html/form.cpp). */
module Forms {
  import opened Wrappers
  import opened Text
  import opened Headers
  import UrlDecode
  import Multipart
  import MultipartRoundTrips

  datatype FieldData = FieldData(name: string, dispositions: string, filename: string, contentType: string,
                                 content: string)

  function Plain(name: string, content: string): FieldData {
    FieldData(name, "", "", "", content)
  }

  // ----- application/x-www-form-urlencoded: the specification ---------------------

  /** The in-place decoder reads inside every value of the body. */
  ghost predicate ValuesScannable(pairs: seq<string>) {
    forall i | 0 <= i < |pairs| ::
      PairOf(pairs[i]).Some? ==>
        UrlDecode.IsBytes(PairOf(pairs[i]).value.1) && UrlDecode.Scannable(PairOf(pairs[i]).value.1)
  }

  ghost function UrlFields(pairs: seq<string>): seq<FieldData>
    requires ValuesScannable(pairs)
  {
    if pairs == [] then []
    else
      (match PairOf(pairs[0])
       case None => []
       case Some((n, v)) => [Plain(n, UrlDecode.Decode(v))]) + UrlFields(pairs[1..])
  }

  /** Decoding a body reads inside it, and gives these fields. */
  ghost predicate UrlReads(body: string, data: seq<FieldData>) {
    var pairs := SplitSpec(body, "&");
    ValuesScannable(pairs) && UrlFields(pairs) == data
  }

  const LINE_BREAK := "\r\n"

  // ----- text/plain: the specification ----------------------------------------------

  function PlainFields(lines: seq<string>): seq<FieldData> {
    if lines == [] then []
    else
      (match PairOf(lines[0])
       case None => []
       case Some((n, v)) => [Plain(n, v)]) + PlainFields(lines[1..])
  }

  // ----- multipart/form-data: the specification --------------------------------------

  const MULTIPART_PREFIX := "multipart/form-data; boundary="

  /** The boundary named last in the Content-Type, or none. */
  function LastBoundary(parts: seq<string>, found: string): string {
    if parts == [] then found
    else if "boundary" <= parts[0] && PairOf(parts[0]).Some? then
      LastBoundary(parts[1..], PairOf(parts[0]).value.1)
    else LastBoundary(parts[1..], found)
  }

  function BoundaryOf(contentType: string): string {
    LastBoundary(SplitSpec(contentType, SEPARATOR), "")
  }

  const NAME := "name="
  const FILENAME := "filename="

  /** What stands between the quotation marks behind a locator, or the exception of `substr`. */
  function Quoted(text: string, locator: string): Result<string> {
    if |locator| + 1 > |text| then Throws(OutOfRange)
    else Ok(Slice(text, |locator| + 1, |text| - |locator| - 2))
  }

  /** The name and the file name given in the parts of a disposition. */
  function ReadDisposition(parts: seq<string>, name: string, filename: string): Result<(string, string)> {
    if parts == [] then Ok((name, filename))
    else if NAME <= parts[0] then
      match Quoted(parts[0], NAME)
      case Throws(e) => Throws(e)
      case Ok(n) => ReadDisposition(parts[1..], n, filename)
    else if FILENAME <= parts[0] then
      match Quoted(parts[0], FILENAME)
      case Throws(e) => Throws(e)
      case Ok(f) => ReadDisposition(parts[1..], name, f)
    else ReadDisposition(parts[1..], name, filename)
  }

  /** A field for each part; none at all if a part has no name or `substr` throws. */
  function PartFields(parts: seq<Multipart.Part>): Option<seq<FieldData>> {
    if parts == [] then Some([])
    else
      var p := parts[0];
      match ReadDisposition(SplitSpec(p.disposition, SEPARATOR), "", "")
      case Throws(_) => None
      case Ok((name, filename)) =>
        if name == "" then None
        else
          match PartFields(parts[1..])
          case None => None
          case Some(rest) => Some([FieldData(name, p.disposition, filename, p.contentType, p.content)] + rest)
  }

  /** The parts of a request body; without a boundary there are none. */
  function PartsOf(contentType: string, body: string): Result<seq<Multipart.Part>> {
    if BoundaryOf(contentType) == "" then Ok([]) else Multipart.ParseSpec(body, BoundaryOf(contentType))
  }

  /** `parse_multipart`: every exception is caught, also the one for a missing Content-Type. */
  function ParseMultipartSpec(contentType: Option<string>, body: string): Option<seq<FieldData>> {
    match contentType
    case None => None
    case Some(value) =>
      match PartsOf(value, body)
      case Throws(_) => None
      case Ok(parts) => PartFields(parts)
  }

  // ----- Encoders --------------------------------------------------------------------

  /** A field of a form, with its encoding in a URL-encoded body. */
  datatype UrlField = UrlField(name: string, value: string, choices: seq<UrlDecode.Choice>)

  /** The separators are escaped in a value. */
  predicate IsEncoded(f: UrlField) {
    && UrlDecode.Encodable(f.value, f.choices)
    && forall i | 0 <= i < |f.value| && f.value[i] in "=&" :: f.choices[i] != UrlDecode.Literal
  }

  /** Names are not decoded: the separators cannot stand in one. */
  predicate NameFree(name: string) {
    '=' !in name && '&' !in name
  }

  function RenderUrlField(f: UrlField): string
    requires IsEncoded(f)
  {
    f.name + "=" + UrlDecode.Encode(f.value, f.choices)
  }

  function UrlPairs(fields: seq<UrlField>): (r: seq<string>)
    requires forall i | 0 <= i < |fields| :: IsEncoded(fields[i])
    ensures |r| == |fields|
    ensures forall i | 0 <= i < |r| :: r[i] == RenderUrlField(fields[i])
  {
    if fields == [] then [] else [RenderUrlField(fields[0])] + UrlPairs(fields[1..])
  }

  function RenderUrl(fields: seq<UrlField>): string
    requires forall i | 0 <= i < |fields| :: IsEncoded(fields[i])
  {
    Join(UrlPairs(fields), "&")
  }

  function UrlData(fields: seq<UrlField>): (r: seq<FieldData>)
    ensures |r| == |fields|
    ensures forall i | 0 <= i < |r| :: r[i] == FieldData(fields[i].name, "", "", "", fields[i].value)
  {
    if fields == [] then [] else [Plain(fields[0].name, fields[0].value)] + UrlData(fields[1..])
  }

  datatype PlainField = PlainField(name: string, value: string)

  /** Fields that stay apart in the lines of a body; a value may have '='. */
  ghost predicate IsPlainField(f: PlainField) {
    && '=' !in f.name && (f.name == "" ==> '=' !in f.value)
    && !Contains(f.name, LINE_BREAK) && !Contains(f.value, LINE_BREAK)
  }

  /** A field without an '=' or a line break. */
  ghost predicate IsFree(d: FieldData) {
    '=' !in d.name && '=' !in d.content && !Contains(d.name, LINE_BREAK) && !Contains(d.content, LINE_BREAK)
  }

  function PlainLines(fields: seq<PlainField>): (r: seq<string>)
    ensures |r| == |fields|
    ensures forall i | 0 <= i < |r| :: r[i] == fields[i].name + "=" + fields[i].value
  {
    if fields == [] then [] else [fields[0].name + "=" + fields[0].value] + PlainLines(fields[1..])
  }

  /** Every line ends in a line break. */
  function RenderPlain(fields: seq<PlainField>): string {
    if fields == [] then "" else Join(PlainLines(fields), LINE_BREAK) + LINE_BREAK
  }

  function PlainData(fields: seq<PlainField>): (r: seq<FieldData>)
    ensures |r| == |fields|
    ensures forall i | 0 <= i < |r| :: r[i] == FieldData(fields[i].name, "", "", "", fields[i].value)
  {
    if fields == [] then [] else [Plain(fields[0].name, fields[0].value)] + PlainData(fields[1..])
  }

  /** The fields whose name and content are both non-empty. */
  function NonEmpty(data: seq<FieldData>): (r: seq<FieldData>)
    ensures |r| <= |data|
  {
    if data == [] then []
    else (if data[0].name != "" && data[0].content != "" then [data[0]] else []) + NonEmpty(data[1..])
  }

  /** A field of a multipart form; files have a file name. */
  datatype FormPart = FormPart(name: string, filename: Option<string>, contentType: string, content: string)

  function DispositionPieces(f: FormPart): seq<string> {
    ["form-data", NAME + "\"" + f.name + "\""] +
    match f.filename
    case None => []
    case Some(filename) => [FILENAME + "\"" + filename + "\""]
  }

  function DispositionOf(f: FormPart): string {
    Join(DispositionPieces(f), SEPARATOR)
  }

  function PartOf(f: FormPart): Multipart.Part {
    Multipart.Part(DispositionOf(f), f.contentType, f.content)
  }

  function DataOf(f: FormPart): FieldData {
    FieldData(f.name, DispositionOf(f), match f.filename { case None => "" case Some(n) => n },
              f.contentType, f.content)
  }

  function PartsOfForm(form: seq<FormPart>): (r: seq<Multipart.Part>)
    ensures |r| == |form|
    ensures forall i | 0 <= i < |r| :: r[i] == PartOf(form[i])
  {
    if form == [] then [] else [PartOf(form[0])] + PartsOfForm(form[1..])
  }

  function DataOfForm(form: seq<FormPart>): (r: seq<FieldData>)
    ensures |r| == |form|
  {
    if form == [] then [] else [DataOf(form[0])] + DataOfForm(form[1..])
  }

  /** What is quoted does not contain the separator of the pieces. */
  ghost predicate QuotesFree(f: FormPart) {
    !Contains(f.name, SEPARATOR) && (f.filename.Some? ==> !Contains(f.filename.value, SEPARATOR))
  }

  ghost predicate IsFormPart(f: FormPart) {
    f.name != "" && QuotesFree(f)
  }

  // ----- Decoding undoes encoding: urlencoded and plain -------------------------------

  /** No field is lost exactly when every name and every content is non-empty. */
  lemma {:induction false} NothingDropped(data: seq<FieldData>)
    ensures NonEmpty(data) == data <==> forall d | d in data :: d.name != "" && d.content != ""
  {
    if data != [] {
      NothingDropped(data[1..]);
      assert data == [data[0]] + data[1..];
      if data[0].name != "" && data[0].content != "" {
        assert NonEmpty(data)[1..] == NonEmpty(data[1..]);
      } else {
        assert data[0] in data;
      }
    }
  }

  /** The sides of a pair are pieces of its text. */
  lemma PairIsFree(text: string, d: string)
    requires d != "" && !Contains(text, d) && PairOf(text).Some?
    ensures !Contains(PairOf(text).value.0, d) && !Contains(PairOf(text).value.1, d)
  {
    PairMeaning(text);
    var n, v := PairOf(text).value.0, PairOf(text).value.1;
    hide *;
    var a, e := Leading(text, "="), Trailing(text, "=");
    Regroup(a, n, "=", v, e);
    SliceMiddle(a, n, "=" + v + e);
    SliceMiddle(a + n + "=", v, e);
    FreeSlice(text, d, |a|, |n|);
    FreeSlice(text, d, |a + n + "="|, |v|);
  }

  lemma Regroup(a: string, b: string, c: string, d: string, e: string)
    ensures a + (b + c + d) + e == a + b + c + d + e
    ensures a + b + c + d + e == a + b + (c + d + e)
  {
  }

  lemma SliceMiddle(front: string, v: string, back: string)
    ensures |front| <= |front + v + back| && Slice(front + v + back, |front|, |v|) == v
  {
  }

  lemma {:induction false} EncodedFree(s: string, choices: seq<UrlDecode.Choice>, c: char)
    requires UrlDecode.Encodable(s, choices) && c in "=&"
    requires forall i | 0 <= i < |s| && s[i] == c :: choices[i] != UrlDecode.Literal
    ensures c !in UrlDecode.Encode(s, choices)
    ensures UrlDecode.Encode(s, choices) == "" <==> s == ""
  {
    if s != "" {
      EncodedFree(s[1..], choices[1..], c);
      EncodedByteFree(s[0], choices[0], c);
    }
  }

  lemma EncodedByteFree(b: char, choice: UrlDecode.Choice, c: char)
    requires b as int < 256 && c in "=&" && (b == c ==> choice != UrlDecode.Literal)
    ensures c !in UrlDecode.EncodeByte(b, choice)
  {
  }

  lemma UrlFieldRead(f: UrlField)
    requires IsEncoded(f) && NameFree(f.name)
    ensures '&' !in RenderUrlField(f) && RenderUrlField(f) != ""
    ensures PairOf(RenderUrlField(f)) ==
            if f.name != "" && f.value != "" then Some((f.name, UrlDecode.Encode(f.value, f.choices))) else None
  {
    EncodedFree(f.value, f.choices, '=');
    EncodedFree(f.value, f.choices, '&');
    FreePairRead(f.name, UrlDecode.Encode(f.value, f.choices));
  }

  lemma UrlFieldPrepended(f: UrlField, below: seq<string>)
    requires IsEncoded(f) && NameFree(f.name) && ValuesScannable(below)
    ensures ValuesScannable([RenderUrlField(f)] + below)
    ensures UrlFields([RenderUrlField(f)] + below) ==
            (if f.name != "" && f.value != "" then [Plain(f.name, f.value)] else []) + UrlFields(below)
  {
    UrlFieldRead(f);
    UrlDecode.DecodeOfEncode(f.value, f.choices);
    hide *;
    var text := RenderUrlField(f);
    if PairOf(text).Some? {
      assert PairOf(text).value.1 == UrlDecode.Encode(f.value, f.choices);
    }
    UrlFieldsCons(text, below);
  }

  lemma UrlFieldsCons(text: string, below: seq<string>)
    requires ValuesScannable(below)
    requires PairOf(text).Some? ==>
               UrlDecode.IsBytes(PairOf(text).value.1) && UrlDecode.Scannable(PairOf(text).value.1)
    ensures ValuesScannable([text] + below)
    ensures UrlFields([text] + below) ==
            (if PairOf(text).Some?
             then [Plain(PairOf(text).value.0, UrlDecode.Decode(PairOf(text).value.1))]
             else []) + UrlFields(below)
  {
    hide PairOf, UrlDecode.Decode, UrlDecode.Scannable, UrlDecode.IsBytes;
    assert ([text] + below)[1..] == below;
  }

  lemma {:induction false} UrlFieldsOfPairs(fields: seq<UrlField>)
    requires forall i | 0 <= i < |fields| :: IsEncoded(fields[i])
    requires forall i | 0 <= i < |fields| :: NameFree(fields[i].name)
    ensures ValuesScannable(UrlPairs(fields))
    ensures UrlFields(UrlPairs(fields)) == NonEmpty(UrlData(fields))
  {
    if fields != [] {
      var f, below := fields[0], UrlPairs(fields[1..]);
      UrlFieldsOfPairs(fields[1..]);
      UrlFieldPrepended(f, below);
      hide IsEncoded, NameFree, RenderUrlField, UrlFields, ValuesScannable;
      assert UrlPairs(fields) == [RenderUrlField(f)] + below;
      assert UrlData(fields)[1..] == UrlData(fields[1..]);
    }
  }

  /** With separator-free names, only fields with an empty name or value are lost. */
  lemma FreeUrlRoundTrip(fields: seq<UrlField>)
    requires forall i | 0 <= i < |fields| :: IsEncoded(fields[i])
    requires forall i | 0 <= i < |fields| :: NameFree(fields[i].name)
    ensures UrlReads(RenderUrl(fields), NonEmpty(UrlData(fields)))
  {
    var pairs := UrlPairs(fields);
    UrlFieldsOfPairs(fields);
    if fields != [] {
      hide IsEncoded, NameFree, RenderUrlField, UrlFields, NonEmpty, UrlData, SplitSpec, Contains, ValuesScannable,
           UrlPairs;
      PairsFree(fields);
      SingleCharUnbordered("&");
      SplitOfJoin(pairs, "&");
    }
  }

  lemma PairsFree(fields: seq<UrlField>)
    requires forall i | 0 <= i < |fields| :: IsEncoded(fields[i])
    requires forall i | 0 <= i < |fields| :: NameFree(fields[i].name)
    ensures |UrlPairs(fields)| == |fields|
    ensures forall p | p in UrlPairs(fields) :: !Contains(p, "&") && p != ""
  {
    var pairs := UrlPairs(fields);
    hide IsEncoded, NameFree, RenderUrlField, Contains, UrlPairs;
    forall p | p in pairs
      ensures !Contains(p, "&") && p != ""
    {
      var i :| 0 <= i < |pairs| && pairs[i] == p;
      UrlFieldRead(fields[i]);
      AmpersandFree(p);
    }
  }

  /** No name that is read contains a separator. */
  lemma {:induction false} UrlNamesFree(pairs: seq<string>)
    requires ValuesScannable(pairs) && forall p | p in pairs :: !Contains(p, "&")
    ensures forall d | d in UrlFields(pairs) :: NameFree(d.name)
  {
    if pairs != [] {
      assert ValuesScannable(pairs[1..]) by {
        assert forall i | 0 <= i < |pairs[1..]| :: pairs[1..][i] == pairs[i + 1];
      }
      hide Contains, PairOf, NameFree, ValuesScannable;
      UrlNamesFree(pairs[1..]);
      if PairOf(pairs[0]).Some? {
        UrlNameFree(pairs[0]);
      }
    }
  }

  lemma UrlReadsFreeNames(body: string, data: seq<FieldData>)
    requires UrlReads(body, data)
    ensures forall d | d in data :: NameFree(d.name)
  {
    hide SplitSpec, Contains, UrlFields, ValuesScannable, NameFree;
    SplitPiecesAreFree(body, "&");
    UrlNamesFree(SplitSpec(body, "&"));
  }

  lemma UrlNameFree(text: string)
    requires !Contains(text, "&") && PairOf(text).Some?
    ensures NameFree(PairOf(text).value.0)
  {
    PairIsFree(text, "&");
    PairMeaning(text);
    SingleCharUnbordered("&");
  }

  /**
   Whichever way the values were escaped, decoding a URL-encoded body gives the
   fields back in order, except those with an empty name or value; so it gives
   all of them back exactly when each has a value and a name that does not
   contain a separator.
   */
  lemma UrlRoundTrip(fields: seq<UrlField>)
    requires forall i | 0 <= i < |fields| :: IsEncoded(fields[i])
    ensures (forall d | d in UrlData(fields) :: NameFree(d.name)) ==>
              UrlReads(RenderUrl(fields), NonEmpty(UrlData(fields)))
    ensures UrlReads(RenderUrl(fields), UrlData(fields)) <==>
              forall d | d in UrlData(fields) :: NameFree(d.name) && d.name != "" && d.content != ""
  {
    var body, data := RenderUrl(fields), UrlData(fields);
    hide *;
    if UrlReads(body, data) {
      UrlReadsFreeNames(body, data);
    }
    NothingDropped(data);
    if forall d | d in data :: NameFree(d.name) {
      FreeData(fields);
      FreeUrlRoundTrip(fields);
    }
  }

  lemma FreeData(fields: seq<UrlField>)
    requires forall d | d in UrlData(fields) :: NameFree(d.name)
    ensures forall i | 0 <= i < |fields| :: NameFree(fields[i].name)
  {
    hide NameFree;
    forall i | 0 <= i < |fields|
      ensures NameFree(fields[i].name)
    {
      assert UrlData(fields)[i] in UrlData(fields);
    }
  }

  lemma AmpersandFree(s: string)
    requires '&' !in s
    ensures !Contains(s, "&")
  {
    forall i: nat
      ensures !OccursAt(s, "&", i)
    {
      if i < |s| {
        assert s[i..i + 1][0] == s[i];
      }
    }
  }

  lemma GluedFree(a: string, c: char, b: string, d: string)
    requires |d| == 2 && c !in d && !Contains(a, d) && !Contains(b, d)
    ensures !Contains(a + [c] + b, d)
  {
    var s := a + [c] + b;
    forall i: nat
      ensures !OccursAt(s, d, i)
    {
      if i + 2 <= |a| {
        assert s[i..i + 2] == a[i..i + 2];
        assert !OccursAt(a, d, i);
      } else if i + 2 <= |s| && i > |a| {
        assert s[i..i + 2] == b[i - |a| - 1..i - |a| + 1];
        assert !OccursAt(b, d, i - |a| - 1);
      } else if i + 2 <= |s| {
        assert s[i..i + 2][|a| - i] == c;
      }
    }
  }

  lemma PlainLineRead(f: PlainField)
    requires IsPlainField(f)
    ensures !Contains(f.name + "=" + f.value, LINE_BREAK)
    ensures PairOf(f.name + "=" + f.value) ==
            if f.name == "" || ValueRead(f.value).None? then None else Some((f.name, ValueRead(f.value).value))
  {
    GluedFree(f.name, '=', f.value, LINE_BREAK);
    PairOfNamed(f.name, f.value);
  }

  /** A field for each value of which something is read. */
  function PlainRead(fields: seq<PlainField>): seq<FieldData> {
    if fields == [] then []
    else
      (if fields[0].name == "" || ValueRead(fields[0].value).None? then []
       else [Plain(fields[0].name, ValueRead(fields[0].value).value)]) + PlainRead(fields[1..])
  }

  lemma {:induction false} PlainFieldsOfLines(fields: seq<PlainField>)
    requires forall f | f in fields :: IsPlainField(f)
    ensures PlainFields(PlainLines(fields)) == PlainRead(fields)
  {
    if fields != [] {
      assert IsPlainField(fields[0]);
      PlainLineRead(fields[0]);
      hide IsPlainField, PairOf, ValueRead;
      PlainFieldsOfLines(fields[1..]);
      assert PlainLines(fields)[1..] == PlainLines(fields[1..]);
    }
  }

  /** What is read of a plain body, for values with and without '='. */
  lemma PlainBodyRead(fields: seq<PlainField>)
    requires forall f | f in fields :: IsPlainField(f)
    ensures PlainFields(SplitSpec(RenderPlain(fields), LINE_BREAK)) == PlainRead(fields)
  {
    PlainFieldsOfLines(fields);
    if fields != [] {
      var lines := PlainLines(fields);
      forall p | p in lines + [""]
        ensures !Contains(p, LINE_BREAK)
      {
        if p in lines {
          var i :| 0 <= i < |lines| && lines[i] == p;
          PlainLineRead(fields[i]);
        }
      }
      assert lines[0] != "" && lines[|lines| - 1] != "";
      Multipart.LineBreakUnbordered();
      hide PlainFields, PlainRead, SplitSpec, Contains, Join;
      JoinSnocEmpty(lines, LINE_BREAK);
      SplitOfJoin(lines + [""], LINE_BREAK);
      assert WithoutEmptyEnds(lines + [""]) == lines;
    }
  }

  /** Without '=', values are read as they are. */
  lemma {:induction false} FreeValuesRead(fields: seq<PlainField>)
    requires forall f | f in fields :: EqualsFree(f.value)
    ensures PlainRead(fields) == NonEmpty(PlainData(fields))
  {
    if fields != [] {
      FreeValuesRead(fields[1..]);
      assert fields[0] in fields;
      assert PlainData(fields)[1..] == PlainData(fields[1..]);
    }
  }

  /** No field that is read contains an '=' or a line break. */
  lemma {:induction false} PlainFieldsFree(lines: seq<string>)
    requires forall line | line in lines :: !Contains(line, LINE_BREAK)
    ensures forall d | d in PlainFields(lines) :: IsFree(d)
  {
    if lines != [] {
      hide Contains, PairOf;
      PlainFieldsFree(lines[1..]);
      if PairOf(lines[0]).Some? {
        PairIsFree(lines[0], LINE_BREAK);
        PairMeaning(lines[0]);
      }
    }
  }

  lemma FreePlainRoundTrip(fields: seq<PlainField>)
    requires forall d | d in PlainData(fields) :: IsFree(d)
    ensures PlainFields(SplitSpec(RenderPlain(fields), LINE_BREAK)) == NonEmpty(PlainData(fields))
  {
    var data := PlainData(fields);
    hide Contains, PlainFields, PlainRead, SplitSpec, NonEmpty;
    forall f | f in fields
      ensures IsPlainField(f) && EqualsFree(f.value)
    {
      var i :| 0 <= i < |fields| && fields[i] == f;
      assert data[i] in data;
    }
    PlainBodyRead(fields);
    FreeValuesRead(fields);
  }

  /**
   Decoding a plain body gives fields without '=' and line breaks back in order,
   except those with an empty name or value; so of all fields it gives back
   exactly those lists in which none is empty and none has an '=' or a line
   break.
   */
  lemma PlainRoundTrip(fields: seq<PlainField>)
    ensures var read := PlainFields(SplitSpec(RenderPlain(fields), LINE_BREAK));
            && ((forall d | d in PlainData(fields) :: IsFree(d)) ==> read == NonEmpty(PlainData(fields)))
            && (read == PlainData(fields) <==>
                forall d | d in PlainData(fields) :: IsFree(d) && d.name != "" && d.content != "")
  {
    var data := PlainData(fields);
    SplitPiecesAreFree(RenderPlain(fields), LINE_BREAK);
    PlainFieldsFree(SplitSpec(RenderPlain(fields), LINE_BREAK));
    hide *;
    NothingDropped(data);
    if forall d | d in data :: IsFree(d) {
      FreePlainRoundTrip(fields);
    }
  }

  /** A value that has an '=' is lost, or shortened if that is its end. */
  lemma EqualsInValue(name: string, value: string, rest: string)
    requires name != "" && IsFree(Plain(name, value)) && !Contains(rest, LINE_BREAK)
    ensures PlainFields(SplitSpec(RenderPlain([PlainField(name, value + "=" + rest)]), LINE_BREAK)) ==
            if rest == "" then [Plain(name, value)] else []
  {
    var f := PlainField(name, value + "=" + rest);
    GluedFree(value, '=', rest, LINE_BREAK);
    hide Contains, PlainFields, SplitSpec;
    PlainBodyRead([f]);
    assert [f][1..] == [];
    var v := f.value;
    if rest == "" {
      assert v[..|v| - 1] == value;
    } else {
      assert v[..|v| - 1][|value|] == '=';
    }
  }

  /** Such as the field a with the value b=c. */
  lemma EqualsInValueWitness()
    ensures var fields := [PlainField("a", "b=c")];
            && RenderPlain(fields) == "a=b=c\r\n"
            && PlainFields(SplitSpec(RenderPlain(fields), LINE_BREAK)) == []
  {
    var fields := [PlainField("a", "b=c")];
    assert fields[1..] == [] && "a" + "=" + "b=c" == "a=b=c";
    assert PlainLines(fields) == ["a=b=c"];
    ShortFree("a");
    ShortFree("b");
    ShortFree("c");
    assert "b" + "=" + "c" == "b=c" && '=' !in "a" && '=' !in "b";
    hide PlainFields, SplitSpec, Contains;
    EqualsInValue("a", "b", "c");
  }

  lemma ShortFree(s: string)
    requires |s| < 2
    ensures !Contains(s, LINE_BREAK)
  {
  }

  // ----- Decoding undoes encoding: multipart ---------------------------------------------

  /** The locator and the quotation marks are taken off again. */
  lemma QuotedRead(locator: string, value: string)
    ensures Quoted(locator + "\"" + value + "\"", locator) == Ok(value)
  {
    var text := locator + "\"" + value + "\"";
    assert text[|locator| + 1..|locator| + 1 + |value|] == value;
  }

  lemma LocatorFree(locator: string, value: string)
    requires locator in {NAME, FILENAME} && !Contains(value, SEPARATOR)
    ensures !Contains(locator + "\"" + value + "\"", SEPARATOR)
  {
    SeparatorFree(locator);
    SeparatorFree("");
    hide Contains;
    GluedFree(locator, '"', value, SEPARATOR);
    GluedFree(locator + "\"" + value, '"', "", SEPARATOR);
    assert locator + "\"" + value + ['"'] + "" == locator + "\"" + value + "\"";
  }

  lemma DispositionPiecesRead(f: FormPart)
    requires QuotesFree(f)
    ensures SplitSpec(DispositionOf(f), SEPARATOR) == DispositionPieces(f)
  {
    var pieces := DispositionPieces(f);
    LocatorFree(NAME, f.name);
    SeparatorFree("form-data");
    if f.filename.Some? {
      LocatorFree(FILENAME, f.filename.value);
    }
    forall p | p in pieces
      ensures !Contains(p, SEPARATOR)
    {
    }
    SeparatorUnbordered();
    hide Contains, SplitSpec;
    SplitOfJoin(pieces, SEPARATOR);
  }

  /**
   The name and the file name are read back from a rendered disposition
   exactly when neither contains the separator: what is read never does.
   */
  lemma DispositionRead(f: FormPart)
    ensures ReadDisposition(SplitSpec(DispositionOf(f), SEPARATOR), "", "") == Ok((f.name, DataOf(f).filename))
            <==> QuotesFree(f)
  {
    var pieces := SplitSpec(DispositionOf(f), SEPARATOR);
    if QuotesFree(f) {
      DispositionPiecesRead(f);
      ReadPieces(f);
      hide *;
    } else {
      SplitPiecesAreFree(DispositionOf(f), SEPARATOR);
      SeparatorFree("");
      hide Contains, SplitSpec, ReadDisposition, DispositionOf;
      ReadIsFree(pieces, "", "");
    }
  }

  lemma QuotedIsFree(text: string, locator: string)
    requires !Contains(text, SEPARATOR) && Quoted(text, locator).Ok?
    ensures !Contains(Quoted(text, locator).value, SEPARATOR)
  {
    hide Contains, Slice;
    FreeSlice(text, SEPARATOR, |locator| + 1, |text| - |locator| - 2);
  }

  lemma {:induction false} ReadIsFree(parts: seq<string>, name: string, filename: string)
    requires forall p | p in parts :: !Contains(p, SEPARATOR)
    requires !Contains(name, SEPARATOR) && !Contains(filename, SEPARATOR)
    ensures var r := ReadDisposition(parts, name, filename);
            r.Ok? ==> !Contains(r.value.0, SEPARATOR) && !Contains(r.value.1, SEPARATOR)
  {
    hide Contains, Quoted;
    if parts != [] {
      var locator := if NAME <= parts[0] then NAME else FILENAME;
      if locator <= parts[0] && Quoted(parts[0], locator).Ok? {
        var value := Quoted(parts[0], locator).value;
        QuotedIsFree(parts[0], locator);
        if locator == NAME {
          ReadIsFree(parts[1..], value, filename);
        } else {
          ReadIsFree(parts[1..], name, value);
        }
      } else if !(locator <= parts[0]) {
        ReadIsFree(parts[1..], name, filename);
      }
    }
  }

  lemma ReadPieces(f: FormPart)
    ensures ReadDisposition(DispositionPieces(f), "", "") == Ok((f.name, DataOf(f).filename))
  {
    var pieces := DispositionPieces(f);
    QuotedRead(NAME, f.name);
    hide Quoted;
    assert pieces[1] == NAME + "\"" + f.name + "\"";
    assert ReadDisposition(pieces, "", "") == ReadDisposition(pieces[1..], "", "") by {
      assert pieces[0][1] == 'o';
    }
    assert ReadDisposition(pieces[1..], "", "") == ReadDisposition(pieces[1..][1..], f.name, "") by {
      assert NAME <= pieces[1..][0];
    }
    if f.filename.Some? {
      QuotedRead(FILENAME, f.filename.value);
      var last := pieces[1..][1..];
      assert last == [FILENAME + "\"" + f.filename.value + "\""];
      assert FILENAME <= last[0] && last[1..] == [];
      assert last[0][0] == 'f';
      assert ReadDisposition(last, f.name, "") == ReadDisposition(last[1..], f.name, f.filename.value);
    } else {
      assert pieces[1..][1..] == [];
    }
  }

  /** The fields of rendered parts are those of the form exactly when all its fields can be read. */
  lemma {:induction false} PartFieldsOfForm(form: seq<FormPart>)
    ensures PartFields(PartsOfForm(form)) == Some(DataOfForm(form)) <==>
            forall i | 0 <= i < |form| :: IsFormPart(form[i])
  {
    if form != [] {
      DispositionRead(form[0]);
      PartFieldsOfForm(form[1..]);
      hide QuotesFree, SplitSpec, ReadDisposition, DispositionOf, DispositionPieces;
      FirstField(form);
      assert (forall i | 0 <= i < |form| :: IsFormPart(form[i])) <==>
             IsFormPart(form[0]) && forall i | 0 <= i < |form[1..]| :: IsFormPart(form[1..][i]) by {
        assert forall i | 0 < i < |form| :: form[i] == form[1..][i - 1];
      }
    }
  }

  lemma FirstField(form: seq<FormPart>)
    requires form != []
    ensures PartFields(PartsOfForm(form)) == Some(DataOfForm(form)) <==>
            && form[0].name != ""
            && ReadDisposition(SplitSpec(DispositionOf(form[0]), SEPARATOR), "", "")
               == Ok((form[0].name, DataOf(form[0]).filename))
            && PartFields(PartsOfForm(form[1..])) == Some(DataOfForm(form[1..]))
  {
    var parts := PartsOfForm(form);
    hide SplitSpec, ReadDisposition, DispositionOf, DispositionPieces;
    assert parts[0] == PartOf(form[0]) && parts[1..] == PartsOfForm(form[1..]);
    assert DataOfForm(form) == [DataOf(form[0])] + DataOfForm(form[1..]);
    assert DataOfForm(form)[1..] == DataOfForm(form[1..]);
    if PartFields(parts).Some? {
      assert PartFields(parts).value[1..] == PartFields(parts[1..]).value;
    }
  }

  /** Fields tell the parts they were read from. */
  lemma {:induction false} FieldsTellParts(parts: seq<Multipart.Part>, form: seq<FormPart>)
    requires PartFields(parts) == Some(DataOfForm(form))
    ensures parts == PartsOfForm(form)
  {
    hide SplitSpec, ReadDisposition, DispositionOf, DispositionPieces;
    if parts != [] && form != [] {
      var fields := PartFields(parts).value;
      assert fields[0] == DataOf(form[0]);
      assert fields[1..] == PartFields(parts[1..]).value;
      assert DataOfForm(form)[1..] == DataOfForm(form[1..]);
      FieldsTellParts(parts[1..], form[1..]);
      assert parts == [parts[0]] + parts[1..];
    }
  }

  lemma ContentTypePieces(boundary: string)
    requires !Contains(boundary, SEPARATOR)
    ensures SplitSpec(MULTIPART_PREFIX + boundary, SEPARATOR) == ["multipart/form-data", "boundary=" + boundary]
  {
    var pieces := ["multipart/form-data", "boundary=" + boundary];
    SeparatorFree("boundary");
    SeparatorFree("multipart/form-data");
    SeparatorUnbordered();
    hide Contains, SplitSpec;
    GluedFree("boundary", '=', boundary, SEPARATOR);
    assert "boundary" + ['='] + boundary == "boundary=" + boundary;
    assert pieces[1..] == ["boundary=" + boundary];
    assert Join(pieces, SEPARATOR) == MULTIPART_PREFIX + boundary;
    SplitOfJoin(pieces, SEPARATOR);
  }

  /** The boundary is found in the Content-Type exactly when it has no '=' and no separator. */
  lemma BoundaryRead(boundary: string)
    ensures BoundaryOf(MULTIPART_PREFIX + boundary) == boundary <==>
            '=' !in boundary && !Contains(boundary, SEPARATOR)
  {
    if Contains(boundary, SEPARATOR) {
      hide Contains, SplitSpec;
      var contentType := MULTIPART_PREFIX + boundary;
      SplitPiecesAreFree(contentType, SEPARATOR);
      SeparatorFree("");
      BoundaryIsFree(SplitSpec(contentType, SEPARATOR), "");
    } else {
      FreeBoundaryRead(boundary);
    }
  }

  lemma {:induction false} BoundaryIsFree(parts: seq<string>, found: string)
    requires !Contains(found, SEPARATOR) && forall p | p in parts :: !Contains(p, SEPARATOR)
    ensures !Contains(LastBoundary(parts, found), SEPARATOR)
  {
    hide Contains, PairOf;
    if parts != [] {
      if "boundary" <= parts[0] && PairOf(parts[0]).Some? {
        PairIsFree(parts[0], SEPARATOR);
        BoundaryIsFree(parts[1..], PairOf(parts[0]).value.1);
      } else {
        BoundaryIsFree(parts[1..], found);
      }
    }
  }

  lemma FreeBoundaryRead(boundary: string)
    requires !Contains(boundary, SEPARATOR)
    ensures BoundaryOf(MULTIPART_PREFIX + boundary) == boundary <==> '=' !in boundary
  {
    ContentTypePieces(boundary);
    hide SplitSpec, PairOf, LastBoundary;
    var text := "boundary" + "=" + boundary;
    assert text == "boundary=" + boundary;
    LastIsRead(text);
    if '=' !in boundary {
      FreePairRead("boundary", boundary);
    } else if PairOf(text).Some? {
      PairMeaning(text);
    }
  }

  lemma LastIsRead(text: string)
    requires "boundary" <= text
    ensures LastBoundary(["multipart/form-data", text], "") == if PairOf(text).Some? then PairOf(text).value.1 else ""
  {
    var pieces := ["multipart/form-data", text];
    hide PairOf;
    assert pieces[1..] == [text] && [text][1..] == [];
    assert pieces[0][0] == 'm' && "boundary"[0] == 'b';
    assert !("boundary" <= pieces[0]);
    assert LastBoundary(pieces, "") == LastBoundary(pieces[1..], "");
    var found := if PairOf(text).Some? then PairOf(text).value.1 else "";
    assert LastBoundary([text], "") == LastBoundary([text][1..], found);
  }

  /**
   Decoding a multipart form undoes encoding it exactly when each field has a
   name, no name and no file name contains the separator, and the parts are
   read back from the body.
   */
  lemma MultipartRoundTrip(form: seq<FormPart>, boundary: string, epilogue: string)
    requires Multipart.IsBoundary(boundary) && '=' !in boundary && !Contains(boundary, SEPARATOR)
    ensures var body := Multipart.Render(PartsOfForm(form), boundary) + epilogue;
            ParseMultipartSpec(Some(MULTIPART_PREFIX + boundary), body) == Some(DataOfForm(form)) <==>
            && (forall i | 0 <= i < |form| :: IsFormPart(form[i]))
            && MultipartRoundTrips.IsReadBack(PartsOfForm(form), boundary, epilogue)
  {
    var parts, body := PartsOfForm(form), Multipart.Render(PartsOfForm(form), boundary) + epilogue;
    BoundaryRead(boundary);
    assert boundary != "";
    hide MultipartRoundTrips.IsReadBack, Multipart.ParseSpec, Multipart.Render, Multipart.IsBoundary, BoundaryOf,
         PartFields, IsFormPart, Contains;
    MultipartRoundTrips.ParseOfRender(parts, boundary, epilogue);
    PartFieldsOfForm(form);
    if ParseMultipartSpec(Some(MULTIPART_PREFIX + boundary), body) == Some(DataOfForm(form)) {
      FieldsTellParts(Multipart.ParseSpec(body, boundary).value, form);
    }
  }

  // ----- Which parameters count ---------------------------------------------------------------

  /** Without the first and the last character behind a locator. */
  function Unquoted(piece: string, locator: string): string
    requires locator <= piece
  {
    if |piece| < |locator| + 2 then "" else piece[|locator| + 1..|piece| - 1]
  }

  /** The value is the one in the last piece that starts with the locator, and nothing if none does. */
  predicate IsLastQuoted(pieces: seq<string>, locator: string, value: string) {
    || (value == "" && forall i | 0 <= i < |pieces| :: !(locator <= pieces[i]))
    || exists i | 0 <= i < |pieces| ::
         locator <= pieces[i] && value == Unquoted(pieces[i], locator)
         && MultipartRoundTrips.NoneBehind(pieces, locator, i)
  }

  lemma QuotedMeaning(piece: string, locator: string)
    requires locator <= piece
    ensures Quoted(piece, locator) == if piece == locator then Throws(OutOfRange) else Ok(Unquoted(piece, locator))
  {
    var n := |locator|;
    if |piece| == n {
      assert piece == piece[..n] == locator;
    } else if |piece| == n + 1 {
      assert Slice(piece, n + 1, -1) == "";
    } else {
      assert Slice(piece, n + 1, |piece| - n - 2) == piece[n + 1..|piece| - 1];
    }
  }

  lemma LastQuotedSnoc(pieces: seq<string>, piece: string, locator: string, value: string)
    ensures locator <= piece ==> IsLastQuoted(pieces + [piece], locator, Unquoted(piece, locator))
    ensures !(locator <= piece) && IsLastQuoted(pieces, locator, value) ==>
              IsLastQuoted(pieces + [piece], locator, value)
  {
    var all := pieces + [piece];
    if locator <= piece {
      assert all[|pieces|] == piece && MultipartRoundTrips.NoneBehind(all, locator, |pieces|);
    } else if IsLastQuoted(pieces, locator, value) {
      if i :| 0 <= i < |pieces| && locator <= pieces[i] && value == Unquoted(pieces[i], locator)
              && MultipartRoundTrips.NoneBehind(pieces, locator, i) {
        assert all[i] == pieces[i] && MultipartRoundTrips.NoneBehind(all, locator, i);
      }
    }
  }

  lemma {:induction false} ReadDispositionSnoc(pieces: seq<string>, piece: string, name: string, filename: string)
    ensures ReadDisposition(pieces + [piece], name, filename) ==
            match ReadDisposition(pieces, name, filename)
            case Throws(e) => Throws(e)
            case Ok((n, f)) => ReadDisposition([piece], n, f)
  {
    if pieces == [] {
      assert [] + [piece] == [piece];
    } else {
      var (p, rest) := (pieces[0], pieces[1..]);
      assert (pieces + [piece])[0] == p && (pieces + [piece])[1..] == rest + [piece];
      var locator := if NAME <= p then NAME else FILENAME;
      if !(locator <= p) {
        ReadDispositionSnoc(rest, piece, name, filename);
      } else if Quoted(p, locator).Ok? {
        if NAME <= p {
          ReadDispositionSnoc(rest, piece, Quoted(p, locator).value, filename);
        } else {
          ReadDispositionSnoc(rest, piece, name, Quoted(p, locator).value);
        }
      }
      hide Quoted;
    }
  }

  lemma OnePieceRead(piece: string, name: string, filename: string)
    ensures ReadDisposition([piece], name, filename) ==
            if piece == "name=" || piece == "filename=" then Throws(OutOfRange)
            else if "name=" <= piece then Ok((Unquoted(piece, "name="), filename))
            else if "filename=" <= piece then Ok((name, Unquoted(piece, "filename=")))
            else Ok((name, filename))
    ensures !("name=" <= piece && "filename=" <= piece)
  {
    assert [piece][1..] == [];
    assert NAME[0] == 'n' && FILENAME[0] == 'f';
    if NAME <= piece {
      QuotedMeaning(piece, NAME);
    }
    if FILENAME <= piece {
      QuotedMeaning(piece, FILENAME);
    }
    hide Quoted, Unquoted;
  }

  /**
   The pieces of a disposition in any order, with any others between them: the
   last name and the last file name count, and a locator without anything behind
   it is an error.
   */
  lemma {:induction false} DispositionMeaning(pieces: seq<string>)
    ensures var r := ReadDisposition(pieces, "", "");
            && (r.Throws? <==> "name=" in pieces || "filename=" in pieces)
            && (r.Ok? ==> IsLastQuoted(pieces, "name=", r.value.0) && IsLastQuoted(pieces, "filename=", r.value.1))
  {
    if pieces != [] {
      var front, piece := pieces[..|pieces| - 1], pieces[|pieces| - 1];
      assert front + [piece] == pieces;
      DispositionMeaning(front);
      ReadDispositionSnoc(front, piece, "", "");
      var r := ReadDisposition(front, "", "");
      if r.Ok? {
        OnePieceRead(piece, r.value.0, r.value.1);
        hide ReadDisposition, IsLastQuoted, Unquoted;
        LastQuotedSnoc(front, piece, "name=", r.value.0);
        LastQuotedSnoc(front, piece, "filename=", r.value.1);
      }
    }
  }

  /** The part cannot be made a field of. */
  ghost predicate Nameless(p: Multipart.Part) {
    var pieces := SplitSpec(p.disposition, "; ");
    "name=" in pieces || "filename=" in pieces || ReadsNoName(pieces)
  }

  ghost predicate ReadsNoName(pieces: seq<string>) {
    ReadDisposition(pieces, "", "").Ok? && ReadDisposition(pieces, "", "").value.0 == ""
  }

  /** One part without a name, or with an error in its disposition, and there are no fields at all. */
  lemma {:induction false} AllPartsCount(parts: seq<Multipart.Part>)
    ensures PartFields(parts).None? <==> AnyNameless(parts)
    ensures PartFields(parts).Some? ==> |PartFields(parts).value| == |parts|
  {
    if parts != [] {
      AllPartsCount(parts[1..]);
      FirstPartCounts(parts);
      NamelessApart(parts);
      hide PartFields, AnyNameless, Nameless;
    }
  }

  ghost predicate AnyNameless(parts: seq<Multipart.Part>) {
    exists i | 0 <= i < |parts| :: Nameless(parts[i])
  }

  lemma NamelessApart(parts: seq<Multipart.Part>)
    requires parts != []
    ensures AnyNameless(parts) <==> Nameless(parts[0]) || AnyNameless(parts[1..])
  {
    hide Nameless;
    if i :| 0 <= i < |parts[1..]| && Nameless(parts[1..][i]) {
      assert Nameless(parts[i + 1]);
    }
    if i :| 0 < i < |parts| && Nameless(parts[i]) {
      assert Nameless(parts[1..][i - 1]);
    }
  }

  lemma FirstPartCounts(parts: seq<Multipart.Part>)
    requires parts != []
    ensures PartFields(parts).None? <==> Nameless(parts[0]) || PartFields(parts[1..]).None?
    ensures PartFields(parts).Some? ==> |PartFields(parts).value| == 1 + |PartFields(parts[1..]).value|
  {
    var pieces := SplitSpec(parts[0].disposition, "; ");
    DispositionMeaning(pieces);
    hide ReadDisposition, SplitSpec, IsLastQuoted;
  }

  /** What a body without a Content-Type, without a boundary, or with a part that is none gives. */
  lemma MultipartMeaning(contentType: string, body: string)
    ensures ParseMultipartSpec(None, body) == None
    ensures BoundaryOf(contentType) == "" ==> ParseMultipartSpec(Some(contentType), body) == Some([])
    ensures BoundaryOf(contentType) != "" ==>
              var parts := Multipart.ParseSpec(body, BoundaryOf(contentType));
              && (ParseMultipartSpec(Some(contentType), body).None? <==>
                  parts.Throws? || AnyNameless(parts.value))
              && (parts.Ok? && ParseMultipartSpec(Some(contentType), body).Some? ==>
                  |ParseMultipartSpec(Some(contentType), body).value| == |parts.value|)
  {
    hide BoundaryOf, Multipart.ParseSpec, AnyNameless;
    if BoundaryOf(contentType) != "" {
      var parts := Multipart.ParseSpec(body, BoundaryOf(contentType));
      if parts.Ok? {
        AllPartsCount(parts.value);
      }
    }
    hide PartFields;
  }

  /** The piece gives a boundary. */
  predicate GivesBoundary(piece: string) {
    "boundary" <= piece && PairOf(piece).Some?
  }

  /** Of all parameters, the last one that gives a boundary counts. */
  lemma {:induction false} LastBoundaryCounts(pieces: seq<string>, found: string, i: nat)
    ensures (forall j | 0 <= j < |pieces| :: !GivesBoundary(pieces[j])) ==> LastBoundary(pieces, found) == found
    ensures i < |pieces| && GivesBoundary(pieces[i]) && (forall j | i < j < |pieces| :: !GivesBoundary(pieces[j])) ==>
              LastBoundary(pieces, found) == PairOf(pieces[i]).value.1
  {
    hide PairOf;
    if pieces != [] {
      var rest := pieces[1..];
      var next := if GivesBoundary(pieces[0]) then PairOf(pieces[0]).value.1 else found;
      assert LastBoundary(pieces, found) == LastBoundary(rest, next);
      LastBoundaryCounts(rest, next, if i > 0 then i - 1 else 0);
      assert forall j | 0 < j < |pieces| :: rest[j - 1] == pieces[j];
      assert forall j | 0 <= j < |rest| :: rest[j] == pieces[j + 1];
    }
  }

  /** A boundary is found in front of another parameter, and behind one. */
  lemma BoundaryAmongParameters(boundary: string, other: string)
    requires boundary != "" && '=' !in boundary && !Contains(boundary, SEPARATOR)
    requires other != "" && !GivesBoundary(other) && !Contains(other, SEPARATOR)
    ensures BoundaryOf("multipart/form-data" + "; " + ("boundary=" + boundary + "; " + other)) == boundary
    ensures BoundaryOf("multipart/form-data" + "; " + (other + "; " + ("boundary=" + boundary))) == boundary
  {
    var media, piece := "multipart/form-data", "boundary" + "=" + boundary;
    assert piece == "boundary=" + boundary && "boundary" <= piece && !("boundary" <= media) by {
      assert media[0] == 'm';
    }
    SeparatorUnbordered();
    SeparatorFree(media);
    SeparatorFree("boundary");
    FreePairRead("boundary", boundary);
    hide Contains, SplitSpec, PairOf;
    assert "boundary" + ['='] + boundary == piece;
    GluedFree("boundary", '=', boundary, SEPARATOR);
    assert GivesBoundary(piece) && !GivesBoundary(media);
    ThreePieces(media, piece, other);
    ThreePieces(media, other, piece);
    LastBoundaryCounts([media, piece, other], "", 1);
    LastBoundaryCounts([media, other, piece], "", 2);
  }

  lemma ThreePieces(a: string, b: string, c: string)
    requires a != "" && c != "" && !Contains(a, SEPARATOR) && !Contains(b, SEPARATOR) && !Contains(c, SEPARATOR)
    requires Unbordered(SEPARATOR)
    ensures SplitSpec(a + "; " + (b + "; " + c), SEPARATOR) == [a, b, c]
  {
    var pieces := [a, b, c];
    hide Contains, SplitSpec;
    assert pieces[1..] == [b, c] && pieces[1..][1..] == [c];
    assert Join(pieces[1..], SEPARATOR) == b + "; " + c;
    assert Join(pieces, SEPARATOR) == a + "; " + Join(pieces[1..], SEPARATOR);
    SplitOfJoin(pieces, SEPARATOR);
  }

  // ----- The code ----------------------------------------------------------------------------

  lemma UrlStep(pairs: seq<string>, i: nat, fields: seq<FieldData>)
    requires ValuesScannable(pairs) && i < |pairs| && ValuesScannable(pairs[i..])
    ensures ValuesScannable(pairs[i + 1..])
    ensures PairOf(pairs[i]).None? ==> fields + UrlFields(pairs[i..]) == fields + UrlFields(pairs[i + 1..])
    ensures PairOf(pairs[i]).Some? ==>
              var (n, v) := PairOf(pairs[i]).value;
              UrlDecode.IsBytes(v) && UrlDecode.Scannable(v) &&
              fields + UrlFields(pairs[i..]) == fields + [Plain(n, UrlDecode.Decode(v))] + UrlFields(pairs[i + 1..])
  {
    hide PairOf, UrlDecode.Decode, UrlDecode.Scannable;
    assert pairs[i..][0] == pairs[i] && pairs[i..][1..] == pairs[i + 1..];
    if PairOf(pairs[i]).Some? {
      var (n, v) := PairOf(pairs[i]).value;
      AppendAssociative(fields, Plain(n, UrlDecode.Decode(v)), UrlFields(pairs[i + 1..]));
    }
  }

  method DecodeValue(value: string) returns (decoded: string)
    requires UrlDecode.IsBytes(value) && UrlDecode.Scannable(value)
    ensures decoded == UrlDecode.Decode(value)
  {
    var buffer := new char[|value|](i requires 0 <= i < |value| => value[i]);
    assert buffer[..] == value;
    var w := UrlDecode.UrlDecode(buffer);
    decoded := buffer[..w];
  }

  /** The pairs before `i` have given `fields`. */
  ghost predicate UrlStage(pairs: seq<string>, i: nat, fields: seq<FieldData>) {
    && i <= |pairs| && ValuesScannable(pairs) && ValuesScannable(pairs[i..])
    && fields + UrlFields(pairs[i..]) == UrlFields(pairs)
  }

  lemma UrlStarts(pairs: seq<string>)
    requires ValuesScannable(pairs)
    ensures UrlStage(pairs, 0, [])
  {
    assert pairs[0..] == pairs;
  }

  lemma UrlTurn(pairs: seq<string>, i: nat, fields: seq<FieldData>)
    requires UrlStage(pairs, i, fields) && i < |pairs|
    ensures PairOf(pairs[i]).None? ==> UrlStage(pairs, i + 1, fields)
    ensures PairOf(pairs[i]).Some? ==>
              var (n, v) := PairOf(pairs[i]).value;
              UrlDecode.IsBytes(v) && UrlDecode.Scannable(v) &&
              UrlStage(pairs, i + 1, fields + [Plain(n, UrlDecode.Decode(v))])
  {
    hide PairOf, ValuesScannable, UrlFields, UrlDecode.Decode, UrlDecode.Scannable, UrlDecode.IsBytes;
    UrlStep(pairs, i, fields);
  }

  lemma UrlEnds(pairs: seq<string>, fields: seq<FieldData>)
    requires UrlStage(pairs, |pairs|, fields)
    ensures ValuesScannable(pairs) && fields == UrlFields(pairs)
  {
    assert pairs[|pairs|..] == [];
  }

  method ParseUrlencoded(body: string) returns (fields: seq<FieldData>)
    requires |body| <= MAX_SIZE && ValuesScannable(SplitSpec(body, "&"))
    ensures fields == UrlFields(SplitSpec(body, "&"))
  {
    hide SplitSpec, UrlFields, ValuesScannable, UrlStage, UrlDecode.IsBytes, UrlDecode.Scannable, UrlDecode.Decode;
    fields := [];
    var pairs := Split(body, "&");
    PieceSizes(body, "&");
    UrlStarts(pairs);
    var i := 0;
    while i < |pairs|
      invariant i <= |pairs| && UrlStage(pairs, i, fields)
    {
      UrlTurn(pairs, i, fields);
      var pair := Split(pairs[i], "=");
      i := i + 1;
      if |pair| != 2 {
        continue;
      }
      var value := DecodeValue(pair[1]);
      fields := fields + [FieldData(pair[0], "", "", "", value)];
    }
    UrlEnds(pairs, fields);
  }

  lemma PlainStep(lines: seq<string>, i: nat, fields: seq<FieldData>)
    requires i < |lines|
    ensures fields + PlainFields(lines[i..]) ==
            match PairOf(lines[i])
            case None => fields + PlainFields(lines[i + 1..])
            case Some((n, v)) => fields + [Plain(n, v)] + PlainFields(lines[i + 1..])
  {
    hide PairOf;
    assert lines[i..][0] == lines[i] && lines[i..][1..] == lines[i + 1..];
    if PairOf(lines[i]).Some? {
      AppendAssociative(fields, Plain(PairOf(lines[i]).value.0, PairOf(lines[i]).value.1), PlainFields(lines[i + 1..]));
    }
  }

  /** The lines before `i` have given `fields`. */
  ghost predicate PlainStage(lines: seq<string>, i: nat, fields: seq<FieldData>) {
    i <= |lines| && fields + PlainFields(lines[i..]) == PlainFields(lines)
  }

  lemma PlainStarts(lines: seq<string>)
    ensures PlainStage(lines, 0, [])
  {
    assert lines[0..] == lines;
  }

  lemma PlainTurn(lines: seq<string>, i: nat, fields: seq<FieldData>)
    requires PlainStage(lines, i, fields) && i < |lines|
    ensures PairOf(lines[i]).None? ==> PlainStage(lines, i + 1, fields)
    ensures PairOf(lines[i]).Some? ==>
              var (n, v) := PairOf(lines[i]).value;
              PlainStage(lines, i + 1, fields + [Plain(n, v)])
  {
    hide PairOf;
    PlainStep(lines, i, fields);
  }

  lemma PlainEnds(lines: seq<string>, fields: seq<FieldData>)
    requires PlainStage(lines, |lines|, fields)
    ensures fields == PlainFields(lines)
  {
    assert lines[|lines|..] == [];
  }

  method ParsePlain(body: string) returns (fields: seq<FieldData>)
    requires |body| <= MAX_SIZE
    ensures fields == PlainFields(SplitSpec(body, LINE_BREAK))
  {
    hide SplitSpec, PlainFields, PlainStage;
    fields := [];
    var lines := Split(body, "\r\n");
    PieceSizes(body, LINE_BREAK);
    PlainStarts(lines);
    var i := 0;
    while i < |lines|
      invariant i <= |lines| && PlainStage(lines, i, fields)
    {
      PlainTurn(lines, i, fields);
      var pair := Split(lines[i], "=");
      i := i + 1;
      if |pair| != 2 {
        continue;
      }
      fields := fields + [FieldData(pair[0], "", "", "", pair[1])];
    }
    PlainEnds(lines, fields);
  }

  /** The loop of `multipart_parser::parse(req)` over the parts of the Content-Type. */
  method FindBoundary(contentType: string) returns (boundary: string)
    requires |contentType| <= MAX_SIZE
    ensures boundary == BoundaryOf(contentType)
    ensures |boundary| <= |contentType|
  {
    boundary := "";
    var parts := Split(contentType, "; ");
    assert parts[0..] == parts;
    PieceSizes(contentType, SEPARATOR);
    hide SplitSpec;
    var i := 0;
    while i < |parts|
      invariant i <= |parts| && |boundary| <= |contentType|
      invariant LastBoundary(parts[i..], boundary) == LastBoundary(parts, "")
    {
      var part := parts[i];
      assert parts[i..][0] == part && parts[i..][1..] == parts[i + 1..];
      i := i + 1;
      if !("boundary" <= part) {
        continue;
      }
      var pair := Split(part, "=");
      PieceSizes(part, "=");
      if |pair| != 2 {
        continue;
      }
      assert pair[1] in pair;
      boundary := pair[1];
    }
  }

  /** `dp.substr(locator.size()+1, dp.size()-locator.size()-2)`; the count may wrap around. */
  method ReadQuoted(dp: string, locator: string) returns (r: Result<string>)
    requires |locator| <= |dp| <= MAX_SIZE
    ensures r == Quoted(dp, locator)
  {
    hide Substr, Slice, SizeT;
    if |locator| + 1 > |dp| {
      return Throws(OutOfRange);
    }
    WrappedCountIsSlice(dp, |locator| + 1, |dp| - |locator| - 2);
    return Ok(Substr(dp, |locator| + 1, SizeT(|dp| - |locator| - 2)));
  }

  /** The loop over the parts of a disposition. */
  method Decompose(disposition: string) returns (r: Result<(string, string)>)
    requires |disposition| <= MAX_SIZE
    ensures r == ReadDisposition(SplitSpec(disposition, SEPARATOR), "", "")
  {
    var name, filename := "", "";
    var parts := Split(disposition, "; ");
    assert parts[0..] == parts;
    PieceSizes(disposition, SEPARATOR);
    ghost var all := ReadDisposition(parts, "", "");
    hide SplitSpec, Quoted;
    var i := 0;
    while i < |parts|
      invariant i <= |parts|
      invariant ReadDisposition(parts[i..], name, filename) == all
    {
      var dp := parts[i];
      assert parts[i..][0] == dp && parts[i..][1..] == parts[i + 1..];
      i := i + 1;
      if "name=" <= dp {
        var quoted := ReadQuoted(dp, "name=");
        if quoted.Throws? {
          return Throws(quoted.what);
        }
        name := quoted.value;
        continue;
      }
      if "filename=" <= dp {
        var quoted := ReadQuoted(dp, "filename=");
        if quoted.Throws? {
          return Throws(quoted.what);
        }
        filename := quoted.value;
        continue;
      }
    }
    return Ok((name, filename));
  }

  function Prepend(fields: seq<FieldData>, rest: Option<seq<FieldData>>): Option<seq<FieldData>> {
    match rest
    case None => None
    case Some(more) => Some(fields + more)
  }

  lemma PartStep(parts: seq<Multipart.Part>, i: nat, fields: seq<FieldData>)
    requires i < |parts|
    ensures Prepend(fields, PartFields(parts[i..])) ==
            match ReadDisposition(SplitSpec(parts[i].disposition, SEPARATOR), "", "")
            case Throws(_) => None
            case Ok((name, filename)) =>
              if name == "" then None
              else
                Prepend(fields + [FieldData(name, parts[i].disposition, filename, parts[i].contentType,
                                            parts[i].content)],
                        PartFields(parts[i + 1..]))
  {
    hide ReadDisposition, SplitSpec;
    assert parts[i..][0] == parts[i] && parts[i..][1..] == parts[i + 1..];
    var read, tail := ReadDisposition(SplitSpec(parts[i].disposition, SEPARATOR), "", ""), PartFields(parts[i + 1..]);
    if read.Ok? && tail.Some? {
      var p := parts[i];
      AppendAssociative(fields, FieldData(read.value.0, p.disposition, read.value.1, p.contentType, p.content),
                        tail.value);
    }
  }

  lemma PrependBounds(parts: seq<Multipart.Part>, fields: seq<FieldData>)
    ensures Prepend([], PartFields(parts)) == PartFields(parts)
    ensures Prepend(fields, PartFields(parts[|parts|..])) == Some(fields)
  {
    if PartFields(parts).Some? {
      assert [] + PartFields(parts).value == PartFields(parts).value;
    }
    assert fields + [] == fields;
  }

  method ParseMultipart(contentType: Option<string>, body: string) returns (r: Option<seq<FieldData>>)
    requires |body| <= MAX_SIZE && (contentType.Some? ==> |contentType.value| <= MAX_SIZE)
    ensures r == ParseMultipartSpec(contentType, body)
  {
    if contentType.None? {
      return None;
    }
    var boundary := FindBoundary(contentType.value);
    if boundary == "" {
      return Some([]);
    }
    var parsed := Multipart.Parse(body, boundary);
    if parsed.Throws? {
      return None;
    }
    var parts := parsed.value;
    var fields := [];
    assert parts[0..] == parts;
    PrependBounds(parts, []);
    hide Prepend, PartFields, ReadDisposition, SplitSpec, BoundaryOf, Multipart.ParseSpec;
    var i := 0;
    while i < |parts|
      invariant i <= |parts|
      invariant Prepend(fields, PartFields(parts[i..])) == PartFields(parts)
    {
      var part := parts[i];
      PartStep(parts, i, fields);
      var names := Decompose(part.disposition);
      if names.Throws? || names.value.0 == "" {
        return None;
      }
      fields := fields + [FieldData(names.value.0, part.disposition, names.value.1, part.contentType, part.content)];
      i := i + 1;
    }
    PrependBounds(parts, fields);
    return Some(fields);
  }
}
