/** Basic access authentication (lib/malloy/server/auth/basic.hpp, section 2 of RFC 7617). */
module BasicAuth {
  import opened Wrappers
  import opened Text
  import Base64

  datatype AuthField = AuthField(scheme: string, username: string, password: string)

  const NUL: char := 0 as char

  /** A text up to its first NUL. */
  function UpToNul(s: string): string {
    if s == "" || s[0] == NUL then "" else [s[0]] + UpToNul(s[1..])
  }

  function ParseSpec(txt: string): Option<AuthField> {
    match Find(txt, " ", 0)
    case None => None
    case Some(pos) =>
      if !Base64.AllLegal(txt[pos + 1..]) then None
      else
        var parts := SplitSpec(UpToNul(Base64.Decoded(txt[pos + 1..])), ":");
        if |parts| != 2 then None else Some(AuthField(txt[..pos], parts[0], parts[1]))
  }

  /** Whether the policy lets a request with this Authorization field through. */
  function Allows(username: string, password: string, authorization: Option<string>): bool {
    match authorization
    case None => false
    case Some(value) => ParseSpec(value) == Some(AuthField("Basic", username, password))
  }

  // ----- What the policy accepts ----------------------------------------------------------

  lemma {:induction false} UpToNulIsPrefix(s: string)
    ensures |UpToNul(s)| <= |s|
    ensures UpToNul(s) == s <==> NUL !in s
    ensures |UpToNul(s)| == |s| ==> UpToNul(s) == s
  {
    if s != "" {
      UpToNulIsPrefix(s[1..]);
      assert s == [s[0]] + s[1..];
    }
  }

  lemma ParseOfEncoded(credentials: string, text: string)
    requires Base64.IsBytes(credentials) && Base64.Stripped(text) == Base64.Stripped(Base64.Encode(credentials))
    ensures ParseSpec("Basic " + text) ==
            var parts := SplitSpec(UpToNul(credentials), ":");
            if |parts| != 2 then None else Some(AuthField("Basic", parts[0], parts[1]))
  {
    var txt := "Basic " + text;
    SingleCharUnbordered(" ");
    assert txt == "Basic" + " " + text;
    FirstAfterFreePart("Basic", " ", text);
    assert txt[6..] == text && txt[..5] == "Basic";
    Base64.DecodeOfEncode(credentials, text);
  }

  lemma SplitsIntoTwo(t: string, u: string, p: string)
    requires SplitSpec(t, ":") == [u, p]
    ensures ':' !in u && ':' !in p
    ensures t == Leading(t, ":") + (u + ":" + p) + Trailing(t, ":")
    ensures u == "" ==> Leading(t, ":") == ":"
    ensures p == "" ==> Trailing(t, ":") == ":"
  {
    SingleCharUnbordered(":");
    SplitPiecesAreFree(t, ":");
    JoinOfSplit(t, ":");
    var parts := SplitSpec(t, ":");
    assert parts[0] in parts && parts[1] in parts && parts[1..] == [p];
  }

  /** The two pieces around a ':', with one more at either end, which must be there next to an empty piece. */
  predicate IsTextOf(t: string, u: string, p: string) {
    var m := u + ":" + p;
    || (u != "" && p != "" && t == m)
    || (p != "" && t == ":" + m)
    || (u != "" && t == m + ":")
    || t == ":" + m + ":"
  }

  /** The texts that split at ':' into two given pieces: a ':' at either end is dropped. */
  lemma TextsOfTwo(t: string, u: string, p: string)
    ensures SplitSpec(t, ":") == [u, p] <==> ':' !in u && ':' !in p && IsTextOf(t, u, p)
  {
    if ':' !in u && ':' !in p {
      JoinsOfTwo(u, p);
    }
    if SplitSpec(t, ":") == [u, p] {
      SplitsIntoTwo(t, u, p);
      hide SplitSpec;
      assert Leading(t, ":") in {"", ":"} && Trailing(t, ":") in {"", ":"};
      EndsOfTwo(t, u, p, Leading(t, ":"), Trailing(t, ":"));
    }
  }

  lemma EndsOfTwo(t: string, u: string, p: string, leading: string, trailing: string)
    requires leading in {"", ":"} && trailing in {"", ":"} && t == leading + (u + ":" + p) + trailing
    requires (u == "" ==> leading == ":") && (p == "" ==> trailing == ":")
    ensures IsTextOf(t, u, p)
  {
    var m := u + ":" + p;
    assert "" + m == m && m + "" == m && ":" + m + "" == ":" + m;
  }

  lemma JoinsOfTwo(u: string, p: string)
    requires ':' !in u && ':' !in p
    ensures var m := u + ":" + p;
            && (u != "" && p != "" ==> SplitSpec(m, ":") == [u, p])
            && (p != "" ==> SplitSpec(":" + m, ":") == [u, p])
            && (u != "" ==> SplitSpec(m + ":", ":") == [u, p])
            && SplitSpec(":" + m + ":", ":") == [u, p]
  {
    var m := u + ":" + p;
    SingleCharUnbordered(":");
    assert [u, p][1..] == [p] && Join([u, p], ":") == m;
    hide SplitSpec, Join;
    JoinSnocEmpty([u, p], ":");
    JoinConsEmpty([u, p], ":");
    JoinConsEmpty([u, p] + [""], ":");
    assert ":" + m + ":" == ":" + (m + ":");
    SplitOfJoin([u, p], ":");
    SplitOfJoin([u, p] + [""], ":");
    SplitOfJoin([""] + [u, p], ":");
    SplitOfJoin([""] + ([u, p] + [""]), ":");
    EndsDropped(u, p);
  }

  lemma EndsDropped(u: string, p: string)
    ensures u != "" ==> WithoutEmptyEnds([u, p] + [""]) == [u, p]
    ensures p != "" ==> WithoutEmptyEnds([""] + [u, p]) == [u, p]
    ensures WithoutEmptyEnds([""] + ([u, p] + [""])) == [u, p]
  {
    assert ([""] + [u, p])[1..] == [u, p];
    assert ([""] + ([u, p] + [""]))[1..] == [u, p] + [""];
  }

  lemma JoinConsEmpty(parts: seq<string>, d: string)
    requires parts != []
    ensures Join([""] + parts, d) == d + Join(parts, d)
  {
    assert ([""] + parts)[1..] == parts;
  }

  /** What the parser needs of a user name and a password. */
  predicate Transmissible(username: string, password: string) {
    && username != "" && password != ""
    && ':' !in username && ':' !in password
    && NUL !in username && NUL !in password
  }

  /**
   Credentials encoded as RFC 7617 prescribes are read back exactly when
   neither part is empty or has a ':' or a NUL.
   */
  lemma CredentialsRoundTrip(username: string, password: string, text: string)
    requires Base64.IsBytes(username + ":" + password)
    requires Base64.Stripped(text) == Base64.Stripped(Base64.Encode(username + ":" + password))
    ensures ParseSpec("Basic " + text) == Some(AuthField("Basic", username, password)) <==>
            Transmissible(username, password)
  {
    hide *;
    var credentials := username + ":" + password;
    ParsedAs(credentials, text, username, password);
    TextsOfTwo(UpToNul(credentials), username, password);
    OwnText(username, password);
    TransmissibleMeans(username, password);
  }

  lemma TransmissibleMeans(u: string, p: string)
    ensures Transmissible(u, p) <==>
            ':' !in u && ':' !in p && u != "" && p != "" && NUL !in u && NUL !in p
  {
  }

  lemma ParsedAs(credentials: string, text: string, u: string, p: string)
    requires Base64.IsBytes(credentials) && Base64.Stripped(text) == Base64.Stripped(Base64.Encode(credentials))
    ensures ParseSpec("Basic " + text) == Some(AuthField("Basic", u, p)) <==>
            SplitSpec(UpToNul(credentials), ":") == [u, p]
  {
    ParseOfEncoded(credentials, text);
    hide ParseSpec, UpToNul, SplitSpec;
    var parts := SplitSpec(UpToNul(credentials), ":");
    assert |parts| == 2 ==> parts == [parts[0], parts[1]];
  }

  /** Credentials are a text of themselves, unless something is missing in them or behind a NUL. */
  lemma OwnText(u: string, p: string)
    ensures IsTextOf(UpToNul(u + ":" + p), u, p) <==> u != "" && p != "" && NUL !in u && NUL !in p
  {
    var m := u + ":" + p;
    UpToNulIsPrefix(m);
    assert NUL !in m <==> NUL !in u && NUL !in p;
    hide UpToNul;
    assert |m| < |":" + m| && |m| < |m + ":"| && |m| < |":" + m + ":"|;
  }

  /**
   Whatever user is configured, the policy lets encoded credentials through
   exactly when, up to the first NUL and apart from a ':' at either end, they
   are the configured ones. Next to an empty name or password there has to be
   that ':'; a name or password with a ':' or a NUL is never accepted.
   */
  lemma PolicyAccepts(username: string, password: string, credentials: string, text: string)
    requires Base64.IsBytes(credentials) && Base64.Stripped(text) == Base64.Stripped(Base64.Encode(credentials))
    ensures Allows(username, password, Some("Basic " + text)) <==>
            && ':' !in username && ':' !in password && NUL !in username && NUL !in password
            && IsTextOf(UpToNul(credentials), username, password)
  {
    ParsedAs(credentials, text, username, password);
    NoNul(credentials);
    AllowsMeans(username, password, "Basic " + text);
    hide *;
    TextsOfTwo(UpToNul(credentials), username, password);
    PiecesIn(UpToNul(credentials), username, password);
  }

  lemma AllowsMeans(username: string, password: string, value: string)
    ensures Allows(username, password, Some(value)) <==>
              ParseSpec(value) == Some(AuthField("Basic", username, password))
  {
  }

  lemma {:induction false} NoNul(s: string)
    ensures NUL !in UpToNul(s)
  {
    if s != "" {
      NoNul(s[1..]);
    }
  }

  lemma PiecesIn(t: string, u: string, p: string)
    ensures IsTextOf(t, u, p) && (NUL in u || NUL in p) ==> NUL in t
  {
  }

  // ----- Which fields are accepted at all ---------------------------------------------------

  /** What stands before the first NUL. */
  lemma {:induction false} BeforeNul(a: string, b: string)
    requires '\0' !in a
    ensures UpToNul(a) == a && UpToNul(a + "\0" + b) == a
  {
    if a == "" {
      assert a + "\0" + b == "\0" + b;
    } else {
      BeforeNul(a[1..], b);
      assert (a + "\0" + b)[1..] == a[1..] + "\0" + b;
      assert a == [a[0]] + a[1..];
    }
  }

  /** A field of any scheme is read exactly if its text is legal and decodes to a text of two pieces. */
  lemma ParseMeaning(scheme: string, text: string, field: AuthField)
    requires ' ' !in scheme
    ensures ParseSpec(scheme + " " + text) == Some(field) <==>
            && field.scheme == scheme && Base64.AllLegal(text)
            && ':' !in field.username && ':' !in field.password
            && IsTextOf(UpToNul(Base64.Decoded(text)), field.username, field.password)
  {
    var txt := scheme + " " + text;
    SingleCharUnbordered(" ");
    FirstAfterFreePart(scheme, " ", text);
    assert txt[|scheme| + 1..] == text && txt[..|scheme|] == scheme;
    if Base64.AllLegal(text) {
      var decoded := UpToNul(Base64.Decoded(text));
      hide IsTextOf, SplitSpec, UpToNul, Base64.Decoded, Find;
      TextsOfTwo(decoded, field.username, field.password);
      var parts := SplitSpec(decoded, ":");
      assert |parts| == 2 ==> parts == [parts[0], parts[1]];
    }
  }

  lemma NoScheme(txt: string)
    requires ' ' !in txt
    ensures ParseSpec(txt) == None
  {
    SingleCharUnbordered(" ");
    if Find(txt, " ", 0).Some? {
      assert OccursAt(txt, " ", Find(txt, " ", 0).value);
      assert Contains(txt, " ");
    }
  }

  lemma {:induction false} SchemeOf(txt: string) returns (scheme: string, text: string)
    requires ' ' in txt
    ensures ' ' !in scheme && txt == scheme + " " + text
  {
    if txt[0] == ' ' {
      scheme, text := "", txt[1..];
    } else {
      scheme, text := SchemeOf(txt[1..]);
      scheme := [txt[0]] + scheme;
    }
  }

  /**
   Every request, with or without an Authorization field: exactly those are let
   through whose field is "Basic " and a text of legal characters that decodes,
   up to the first NUL, to the configured name and password.
   */
  lemma LetThroughExactly(username: string, password: string, authorization: Option<string>)
    ensures Allows(username, password, authorization) <==>
            && authorization.Some? && "Basic " <= authorization.value
            && Base64.AllLegal(authorization.value[6..])
            && ':' !in username && ':' !in password && '\0' !in username && '\0' !in password
            && IsTextOf(UpToNul(Base64.Decoded(authorization.value[6..])), username, password)
    ensures authorization.Some? && "Basic " <= authorization.value ==>
              (Base64.AllLegal(authorization.value[6..]) <==>
               forall c | c in authorization.value[6..] :: Base64.IsLetter(c) || c in Base64.PASSED_OVER)
  {
    if authorization.Some? {
      var txt := authorization.value;
      AllowsMeans(username, password, txt);
      if "Basic " <= txt {
        LegalTexts(txt[6..]);
        BasicMeaning(username, password, txt);
      } else if ' ' in txt {
        var scheme, text := SchemeOf(txt);
        assert scheme == "Basic" ==> "Basic " <= txt;
        ParseMeaning(scheme, text, AuthField("Basic", username, password));
      } else {
        NoScheme(txt);
      }
    }
  }

  lemma BasicMeaning(username: string, password: string, txt: string)
    requires "Basic " <= txt
    ensures ParseSpec(txt) == Some(AuthField("Basic", username, password)) <==>
            && Base64.AllLegal(txt[6..])
            && ':' !in username && ':' !in password && '\0' !in username && '\0' !in password
            && IsTextOf(UpToNul(Base64.Decoded(txt[6..])), username, password)
  {
    var text := txt[6..];
    assert txt == "Basic" + " " + text;
    ParseMeaning("Basic", text, AuthField("Basic", username, password));
    hide ParseSpec, Base64.Decoded;
    if Base64.AllLegal(text) {
      NoNul(Base64.Decoded(text));
      PiecesIn(UpToNul(Base64.Decoded(text)), username, password);
    }
  }

  lemma LegalTexts(text: string)
    ensures Base64.AllLegal(text) <==> forall c | c in text :: Base64.IsLetter(c) || c in Base64.PASSED_OVER
  {
    forall c
      ensures Base64.IsLegal(c) <==> Base64.IsLetter(c) || c in Base64.PASSED_OVER
    {
      Base64.LegalCharacters(c);
    }
    hide Base64.IsLegal;
    assert forall i | 0 <= i < |text| :: text[i] in text;
  }

  // ----- The code ----------------------------------------------------------------------------

  lemma {:induction false} UpToNulOfPadded(s: string, zeros: string)
    requires forall i | 0 <= i < |zeros| :: zeros[i] == NUL
    ensures UpToNul(s + zeros) == UpToNul(s)
  {
    if s == "" {
      assert s + zeros == zeros;
    } else {
      assert (s + zeros)[1..] == s[1..] + zeros;
      UpToNulOfPadded(s[1..], zeros);
    }
  }

  lemma {:induction false} UpToNulAt(s: string, end: nat)
    requires end <= |s| && forall i | 0 <= i < end :: s[i] != NUL
    requires end < |s| ==> s[end] == NUL
    ensures UpToNul(s) == s[..end]
  {
    if end > 0 {
      UpToNulAt(s[1..], end - 1);
      assert s[..end] == [s[0]] + s[1..][..end - 1];
    }
  }

  /** The text in the buffer up to its first zero byte. */
  method EraseFromNul(buffer: array<char>) returns (s: string)
    ensures s == UpToNul(buffer[..])
  {
    var end := 0;
    while end < buffer.Length && buffer[end] != NUL
      invariant end <= buffer.Length && forall i | 0 <= i < end :: buffer[i] != NUL
    {
      end := end + 1;
    }
    UpToNulAt(buffer[..], end);
    s := buffer[..end];
  }

  /** The output buffer is a third larger than the text, and must have a legal size too. */
  method ParseAuthField(txt: string) returns (r: Option<AuthField>)
    requires |txt| <= MAX_SIZE / 2
    ensures r == ParseSpec(txt)
  {
    var methodPos := FindSize(txt, " ", 0);
    if methodPos == NPOS {
      return None;
    }
    var encoded := txt[methodPos + 1..];
    var buffer := new char[Base64.Needed(|encoded|)](_ => NUL);
    var decoded, written := Base64.Decode(encoded, buffer);
    if decoded.Throws? {
      return None;
    }
    assert buffer[..] == written + buffer[|written|..];
    UpToNulOfPadded(written, buffer[|written|..]);
    var out := EraseFromNul(buffer);
    UpToNulIsPrefix(written);
    var usepass := Split(out, ":");
    if |usepass| != 2 {
      return None;
    }
    return Some(AuthField(txt[..methodPos], usepass[0], usepass[1]));
  }

  /** `operator()`: the policy answers unless the request carries the configured credentials. */
  method Check(username: string, password: string, authorization: Option<string>) returns (answers: bool)
    requires authorization.Some? ==> |authorization.value| <= MAX_SIZE / 2
    ensures answers <==> !Allows(username, password, authorization)
  {
    if authorization.None? {
      return true;
    }
    var parsed := ParseAuthField(authorization.value);
    if parsed.None? {
      return true;
    }
    var details := parsed.value;
    answers := details.scheme != "Basic" || details.username != username || details.password != password;
  }
}
