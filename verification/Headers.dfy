/** Header values, pairs and cookies (lib/malloy/core/http/utils.hpp). */
module Headers {
  import opened Wrappers
  import opened Text

  const SEPARATOR := "; "

  /** A text that splits at '=' into exactly two pieces. */
  function PairOf(text: string): Option<(string, string)> {
    var parts := SplitSpec(text, "=");
    if |parts| == 2 then Some((parts[0], parts[1])) else None
  }

  /** The second piece of the first pair whose first piece is `name`. */
  function Lookup(pairs: seq<string>, name: string): Option<string> {
    if pairs == [] then None
    else
      match PairOf(pairs[0])
      case Some((n, v)) => if n == name then Some(v) else Lookup(pairs[1..], name)
      case None => Lookup(pairs[1..], name)
  }

  /** `cookie_value`, given the value of the Cookie field if there is one. */
  function CookieValueSpec(cookie: Option<string>, name: string): Option<string> {
    match cookie
    case None => None
    case Some(value) => Lookup(SplitSpec(value, SEPARATOR), name)
  }

  method CookieValue(cookie: Option<string>, cookieName: string) returns (r: Option<string>)
    requires cookie.Some? ==> |cookie.value| <= MAX_SIZE
    ensures r == CookieValueSpec(cookie, cookieName)
  {
    if cookie.None? {
      return None;
    }
    var pairs := Split(cookie.value, "; ");
    assert pairs[0..] == pairs;
    PieceSizes(cookie.value, SEPARATOR);
    hide SplitSpec;
    var i := 0;
    while i < |pairs|
      invariant i <= |pairs|
      invariant Lookup(pairs[i..], cookieName) == Lookup(pairs, cookieName)
    {
      assert pairs[i..][1..] == pairs[i + 1..];
      var parts := Split(pairs[i], "=");
      i := i + 1;
      if |parts| != 2 {
        continue;
      }
      if parts[0] == cookieName {
        return Some(parts[1]);
      }
    }
    return None;
  }

  lemma {:induction false} JoinSize(parts: seq<string>, d: string)
    ensures forall p | p in parts :: |p| <= |Join(parts, d)|
  {
    if |parts| > 1 {
      JoinSize(parts[1..], d);
      assert parts == [parts[0]] + parts[1..];
    }
  }

  lemma PieceSizes(s: string, d: string)
    ensures forall p | p in SplitSpec(s, d) :: |p| <= |s|
  {
    JoinOfSplit(s, d);
    JoinSize(SplitSpec(s, d), d);
  }

  // ----- Pairs ------------------------------------------------------------------

  predicate EqualsFree(s: string) {
    '=' !in s
  }

  lemma FreePairRead(name: string, value: string)
    requires EqualsFree(name) && EqualsFree(value)
    ensures PairOf(name + "=" + value) == if name != "" && value != "" then Some((name, value)) else None
  {
    SingleCharUnbordered("=");
    var parts := [name, value];
    assert parts[1..] == [value];
    assert Join(parts, "=") == name + "=" + value;
    SplitOfJoin(parts, "=");
  }

  /** For all texts: a rendered pair is read back exactly when both sides are non-empty and free of '='. */
  lemma PairOfRendered(name: string, value: string)
    ensures PairOf(name + "=" + value) == Some((name, value)) <==>
            name != "" && value != "" && EqualsFree(name) && EqualsFree(value)
  {
    if PairOf(name + "=" + value) == Some((name, value)) {
      PairMeaning(name + "=" + value);
    }
    if EqualsFree(name) && EqualsFree(value) {
      FreePairRead(name, value);
    }
  }

  /** What a pair says about the text it was read from. */
  lemma PairMeaning(text: string)
    requires PairOf(text).Some?
    ensures var (n, v) := PairOf(text).value;
            EqualsFree(n) && EqualsFree(v) &&
            text == Leading(text, "=") + (n + "=" + v) + Trailing(text, "=")
  {
    var parts := SplitSpec(text, "=");
    SingleCharUnbordered("=");
    SplitPiecesAreFree(text, "=");
    JoinOfSplit(text, "=");
    assert parts[0] in parts && parts[1] in parts;
    assert parts[1..] == [parts[1]];
  }

  /**
   What is read of a value behind a name: all of it but one '=' at its end, and
   nothing if it is empty or has another '='.
   */
  function ValueRead(value: string): Option<string> {
    var v := if value != "" && value[|value| - 1] == '=' then value[..|value| - 1] else value;
    if value == "" || '=' in v then None else Some(v)
  }

  /** A value is read as it is exactly when it is non-empty and free of '='. */
  lemma WholeValueRead(value: string)
    ensures ValueRead(value) == Some(value) <==> value != "" && EqualsFree(value)
  {
  }

  lemma FirstEquals(n: string, v: string, n': string, v': string)
    requires EqualsFree(n) && EqualsFree(n') && n + "=" + v == n' + "=" + v'
    ensures n == n' && v == v'
  {
    var text := n + "=" + v;
    assert text[|n|] == '=' == text[|n'|];
    assert forall i | 0 <= i < |n| :: text[i] == n[i] != '=';
    assert forall i | 0 <= i < |n'| :: text[i] == n'[i] != '=';
    assert text[..|n|] == n && text[..|n'|] == n';
    assert text[|n| + 1..] == v && text[|n'| + 1..] == v';
  }

  /** A value that ends in the sign. */
  lemma PaddedPairRead(name: string, value: string)
    requires name != "" && EqualsFree(name) && EqualsFree(value)
    ensures PairOf(name + "=" + value + "=") == Some((name, value))
  {
    SingleCharUnbordered("=");
    var parts := [name, value, ""];
    assert parts[1..] == [value, ""] && parts[1..][1..] == [""];
    assert Join(parts[1..], "=") == value + "=" + "";
    assert Join(parts, "=") == name + "=" + value + "=";
    hide SplitSpec, Contains;
    SplitOfJoin(parts, "=");
    assert parts[..2] == [name, value];
  }

  /** A pair can only be read if there is no '=' but the one at the end. */
  lemma PairTells(name: string, value: string)
    requires name != "" && EqualsFree(name) && !EqualsFree(value) && PairOf(name + "=" + value).Some?
    ensures ValueRead(value).Some?
  {
    var text := name + "=" + value;
    assert Trailing(text, "=") == "" || Trailing(text, "=") == "=";
    PairMeaning(text);
    NoLeading(name, value);
    hide *;
    TextTells(name, value, PairOf(text).value.0, PairOf(text).value.1, Trailing(text, "="));
  }

  lemma NoLeading(name: string, value: string)
    requires name != "" && EqualsFree(name)
    ensures Leading(name + "=" + value, "=") == ""
  {
    assert (name + "=" + value)[0] == name[0] != '=';
  }

  lemma TextTells(name: string, value: string, n: string, v: string, end: string)
    requires EqualsFree(name) && EqualsFree(n) && EqualsFree(v) && !EqualsFree(value)
    requires (end == "" || end == "=") && name + "=" + value == "" + (n + "=" + v) + end
    ensures ValueRead(value).Some?
  {
    assert "" + (n + "=" + v) + end == n + "=" + (v + end);
    FirstEquals(name, value, n, v + end);
    assert value[..|v|] == v;
  }

  /** For every value: what is read of a pair whose name is free of '='. */
  lemma PairOfNamed(name: string, value: string)
    requires EqualsFree(name) && (name == "" ==> EqualsFree(value))
    ensures PairOf(name + "=" + value) ==
            if name == "" || ValueRead(value).None? then None else Some((name, ValueRead(value).value))
  {
    if EqualsFree(value) {
      FreePairRead(name, value);
    } else {
      if ValueRead(value).Some? {
        var v := ValueRead(value).value;
        assert value == v + "=";
        PaddedPairRead(name, v);
        assert name + "=" + v + "=" == name + "=" + value;
      } else if PairOf(name + "=" + value).Some? {
        PairTells(name, value);
      }
    }
  }

  // ----- Cookies -----------------------------------------------------------------

  datatype Cookie = Cookie(name: string, value: string)

  /** Names and values as section 4.1.1 of RFC 6265 allows them: a value may have '='. */
  predicate IsCookie(c: Cookie) {
    && '=' !in c.name && ';' !in c.name && ';' !in c.value
    && (c.name == "" ==> '=' !in c.value)
  }

  function CookiePairs(cookies: seq<Cookie>): (r: seq<string>)
    ensures |r| == |cookies|
    ensures forall i | 0 <= i < |r| :: r[i] == cookies[i].name + "=" + cookies[i].value
  {
    if cookies == [] then []
    else [cookies[0].name + "=" + cookies[0].value] + CookiePairs(cookies[1..])
  }

  function RenderCookies(cookies: seq<Cookie>): string {
    Join(CookiePairs(cookies), SEPARATOR)
  }

  /** What is read of the first cookie of that name of which anything is read. */
  function FirstNamed(cookies: seq<Cookie>, name: string): Option<string> {
    if cookies == [] then None
    else if cookies[0].name == name != "" && ValueRead(cookies[0].value).Some? then ValueRead(cookies[0].value)
    else FirstNamed(cookies[1..], name)
  }

  lemma SeparatorFree(s: string)
    requires ';' !in s
    ensures !Contains(s, SEPARATOR)
  {
    forall i: nat
      ensures !OccursAt(s, SEPARATOR, i)
    {
      assert i + 2 <= |s| ==> s[i..i + 2][0] == s[i] != ';';
    }
  }

  lemma SeparatorUnbordered()
    ensures Unbordered(SEPARATOR)
  {
    assert SEPARATOR[1..] == " " && SEPARATOR[..1] == ";";
  }

  lemma {:induction false} LookupInPairs(cookies: seq<Cookie>, name: string)
    requires forall c | c in cookies :: IsCookie(c)
    ensures Lookup(CookiePairs(cookies), name) == FirstNamed(cookies, name)
  {
    if cookies != [] {
      assert IsCookie(cookies[0]);
      PairOfNamed(cookies[0].name, cookies[0].value);
      hide PairOf, ValueRead;
      LookupInPairs(cookies[1..], name);
      assert CookiePairs(cookies)[1..] == CookiePairs(cookies[1..]);
    }
  }

  /** Looking a name up in a rendered Cookie field finds the first cookie of that name that can be read. */
  lemma CookieValueOfRender(cookies: seq<Cookie>, name: string)
    requires forall c | c in cookies :: IsCookie(c)
    ensures CookieValueSpec(Some(RenderCookies(cookies)), name) == FirstNamed(cookies, name)
  {
    var pairs := CookiePairs(cookies);
    LookupInPairs(cookies, name);
    if cookies != [] {
      forall p | p in pairs
        ensures !Contains(p, SEPARATOR) && p != ""
      {
        var i :| 0 <= i < |pairs| && pairs[i] == p;
        assert IsCookie(cookies[i]);
        SeparatorFree(p);
      }
      SeparatorUnbordered();
      hide Contains, SplitSpec, Lookup;
      SplitOfJoin(pairs, SEPARATOR);
    }
  }
  lemma PaddedValueRead(value: string)
    requires EqualsFree(value)
    ensures ValueRead(value) == if value == "" then None else Some(value)
    ensures ValueRead(value + "=") == Some(value)
    ensures ValueRead(value + "==") == None
  {
    assert (value + "=")[..|value|] == value;
    assert (value + "==")[..|value| + 1][|value|] == '=';
  }

  /** Only values that are non-empty and free of '=' come back: a padded one is shortened or not found. */
  lemma PaddedCookie(name: string, value: string)
    requires name != "" && IsCookie(Cookie(name, value)) && EqualsFree(value)
    ensures CookieValueSpec(Some(name + "=" + value), name) == if value == "" then None else Some(value)
    ensures CookieValueSpec(Some(name + "=" + (value + "=")), name) == Some(value)
    ensures CookieValueSpec(Some(name + "=" + (value + "==")), name) == None
  {
    assert IsCookie(Cookie(name, value + "=")) && IsCookie(Cookie(name, value + "=="));
    hide *;
    PaddedValueRead(value);
    LoneCookie(name, value);
    LoneCookie(name, value + "=");
    LoneCookie(name, value + "==");
  }

  lemma LoneCookie(name: string, value: string)
    requires name != "" && IsCookie(Cookie(name, value))
    ensures CookieValueSpec(Some(name + "=" + value), name) == ValueRead(value)
  {
    var cookies := [Cookie(name, value)];
    hide ValueRead, CookieValueSpec;
    CookieValueOfRender(cookies, name);
    assert cookies[1..] == [];
    assert CookiePairs(cookies) == [name + "=" + value];
  }

  /** In full: the second of two cookies. */
  lemma SecondCookie(first: string, name: string, value: string)
    requires name != "" && IsCookie(Cookie(name, value)) && '=' !in value && value != ""
    requires first != "" && ';' !in first && (PairOf(first).Some? ==> PairOf(first).value.0 != name)
    ensures CookieValueSpec(Some(first + "; " + (name + "=" + value)), name) == Some(value)
  {
    var second := name + "=" + value;
    var pairs := [first, second];
    FreePairRead(name, value);
    SeparatorFree(first);
    SeparatorFree(second);
    SeparatorUnbordered();
    hide Contains, SplitSpec, PairOf;
    assert pairs[1..] == [second] && [second][1..] == [];
    assert Join(pairs, SEPARATOR) == first + "; " + second;
    SplitOfJoin(pairs, SEPARATOR);
    assert Lookup(pairs, name) == Lookup(pairs[1..], name);
  }
}
