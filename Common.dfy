/**
  The front end's shared helpers: the strong-password check, reading a cookie out of
  `document.cookie`, the signed-in user's info cookie, and serialising query
  parameters into a query string.
 */
module Common {
  import opened Wrappers
  import opened Identity
  import Utf8

  type Byte = Utf8.Byte

  // ---------------------------------------------------------------------------
  // checkStrongPassword
  // ---------------------------------------------------------------------------

  const StrongPasswordMinLength: nat := 8

  /** The character class `[!@#$%^&*(),.?":{}|<>]`. */
  predicate IsSpecial(c: char) {
    || c == '!' || c == '@' || c == '#' || c == '$' || c == '%' || c == '^' || c == '&'
    || c == '*' || c == '(' || c == ')' || c == ',' || c == '.' || c == '?' || c == '"'
    || c == ':' || c == '{' || c == '}' || c == '|' || c == '<' || c == '>'
  }

  /**
    checkStrongPassword: at least eight UTF-16 code units (JavaScript's `length`),
    an upper-case letter, a lower-case letter, a digit and a special character.
   */
  predicate CheckStrongPassword(password: string) {
    && Utf16Length(password) >= StrongPasswordMinLength
    && HasChar(password, IsAsciiUpper)
    && HasChar(password, IsAsciiLower)
    && HasChar(password, IsAsciiDigit)
    && HasChar(password, IsSpecial)
  }

  lemma HasCharAppend(a: string, b: string, p: char -> bool)
    requires HasChar(a, p) || HasChar(b, p)
    ensures HasChar(a + b, p)
  {
    if HasChar(a, p) {
      var i :| 0 <= i < |a| && p(a[i]);
      assert (a + b)[i] == a[i];
    } else {
      var i :| 0 <= i < |b| && p(b[i]);
      assert (a + b)[|a| + i] == b[i];
    }
  }

  /** Every test is a length lower bound or an existence test, so adding characters on either side keeps a password strong. */
  lemma StrongPasswordExtends(password: string, extra: string)
    requires CheckStrongPassword(password)
    ensures CheckStrongPassword(password + extra) && CheckStrongPassword(extra + password)
  {
    Utf16LengthAppend(password, extra);
    Utf16LengthAppend(extra, password);
    HasCharAppend(password, extra, IsAsciiUpper);
    HasCharAppend(password, extra, IsAsciiLower);
    HasCharAppend(password, extra, IsAsciiDigit);
    HasCharAppend(password, extra, IsSpecial);
    HasCharAppend(extra, password, IsAsciiUpper);
    HasCharAppend(extra, password, IsAsciiLower);
    HasCharAppend(extra, password, IsAsciiDigit);
    HasCharAppend(extra, password, IsSpecial);
  }

  /** A password the front end accepts as strong also passes the server's default password validator. */
  lemma StrongPasswordPassesIdentity(password: string)
    requires CheckStrongPassword(password)
    ensures PasswordErrors(password) == []
  {
    var i :| 0 <= i < |password| && IsSpecial(password[i]);
    assert !IsAsciiDigit(password[i]) && !IsAsciiLower(password[i]) && !IsAsciiUpper(password[i]);
    assert HasChar(password, IsNonAlphanumeric);
  }

  /** The server accepts six characters where the front end asks for eight. */
  lemma IdentityAcceptsShorterPassword()
    ensures PasswordErrors("Aa1!aa") == [] && !CheckStrongPassword("Aa1!aa")
  {
    var p := "Aa1!aa";
    assert IsAsciiUpper(p[0]) && IsAsciiLower(p[1]) && IsAsciiDigit(p[2]) && IsSpecial(p[3]);
    StrongPasswordPassesIdentityWithoutLength(p, 3);
    UpperCaseIsNotBlank(p, 0);
    BmpUtf16Length(p);
  }

  lemma UpperCaseIsNotBlank(p: string, i: nat)
    requires i < |p| && IsAsciiUpper(p[i])
    ensures !IsNullOrWhiteSpace(p)
  {
    assert !IsWhiteSpace(p[i]);
  }

  lemma StrongPasswordPassesIdentityWithoutLength(p: string, i: nat)
    requires i < |p| && IsSpecial(p[i])
    ensures HasChar(p, IsNonAlphanumeric)
  {
    assert !IsAsciiDigit(p[i]) && !IsAsciiLower(p[i]) && !IsAsciiUpper(p[i]);
  }

  /**
    An illustration of `Utf16LengthCountsAstralTwice`: six code points, two of them
    outside the Basic Multilingual Plane, meet the eight-unit minimum of `.length`.
   */
  lemma AstralCharactersCountTwice()
    ensures var p := "Aa1!" + ['\U{1F600}', '\U{1F600}'];
      |p| == 6 && CheckStrongPassword(p)
  {
    var p := "Aa1!" + ['\U{1F600}', '\U{1F600}'];
    assert IsAsciiUpper(p[0]) && IsAsciiLower(p[1]) && IsAsciiDigit(p[2]) && IsSpecial(p[3]);
    assert Utf16Length(p[4..]) == 4;
    assert p == p[..4] + p[4..];
    Utf16LengthAppend(p[..4], p[4..]);
  }

  // ---------------------------------------------------------------------------
  // Percent-encoding: decodeURIComponent, and the escaping the server applies to
  // cookie values (Uri.EscapeDataString)
  // ---------------------------------------------------------------------------

  predicate IsHexDigit(c: char) {
    IsAsciiDigit(c) || 'a' <= c <= 'f' || 'A' <= c <= 'F'
  }

  function HexValue(c: char): (v: nat)
    requires IsHexDigit(c)
    ensures v < 16
  {
    if IsAsciiDigit(c) then c as int - '0' as int
    else if 'a' <= c <= 'f' then c as int - 'a' as int + 10
    else c as int - 'A' as int + 10
  }

  /** The upper-case hexadecimal digit for `v`. */
  function HexDigit(v: nat): (c: char)
    requires v < 16
    ensures IsHexDigit(c) && HexValue(c) == v
  {
    if v < 10 then ('0' as int + v) as char else ('A' as int + v - 10) as char
  }

  /** `%HH` for one byte. */
  function Escape(b: Byte): (s: string)
    ensures |s| == 3 && s[0] == '%' && IsHexDigit(s[1]) && IsHexDigit(s[2])
    ensures HexValue(s[1]) * 16 + HexValue(s[2]) == b
  {
    ['%', HexDigit(b / 16), HexDigit(b % 16)]
  }

  function EscapeBytes(bs: seq<Byte>): (s: string)
    ensures |s| == 3 * |bs|
  {
    if bs == [] then [] else Escape(bs[0]) + EscapeBytes(bs[1..])
  }

  /** The bytes of `count` escapes `%HH` at the start of `s`, if they are there. */
  function ReadEscapes(s: string, count: nat): (r: Option<seq<Byte>>)
    ensures r.Some? ==> |r.value| == count && 3 * count <= |s|
  {
    if count == 0 then Some([])
    else if |s| < 3 || s[0] != '%' || !IsHexDigit(s[1]) || !IsHexDigit(s[2]) then None
    else
      match ReadEscapes(s[3..], count - 1)
      case None => None
      case Some(rest) => Some([HexValue(s[1]) * 16 + HexValue(s[2])] + rest)
  }

  lemma {:induction false} ReadEscapesOfEscapeBytes(bs: seq<Byte>, rest: string, count: nat)
    requires count <= |bs|
    ensures ReadEscapes(EscapeBytes(bs) + rest, count) == Some(bs[..count])
  {
    if count > 0 {
      var s := EscapeBytes(bs) + rest;
      assert s == Escape(bs[0]) + (EscapeBytes(bs[1..]) + rest);
      assert s[3..] == EscapeBytes(bs[1..]) + rest;
      ReadEscapesOfEscapeBytes(bs[1..], rest, count - 1);
      assert [bs[0]] + bs[1..][..count - 1] == bs[..count];
    }
  }

  /**
    decodeURIComponent (ECMAScript section 19.2.6.2, Decode with an empty reserved
    set): each escape sequence `%HH…` that forms one UTF-8 encoded character becomes
    that character; a malformed one throws a URIError.
   */
  function DecodeUriComponent(s: string): (r: Result<string>)
    decreases |s|
  {
    if s == [] then Ok([])
    else if s[0] != '%' then
      var rest :- DecodeUriComponent(s[1..]);
      Ok([s[0]] + rest)
    else
      match ReadEscapes(s, 1)
      case None => Err(UriError)
      case Some(lead) =>
        var n := Utf8.SequenceLength(lead[0]);
        if n == 0 then Err(UriError)
        else
          match ReadEscapes(s, n)
          case None => Err(UriError)
          case Some(bs) =>
            match Utf8.DecodeFirst(bs)
            case None => Err(UriError)
            case Some((c, _)) =>
              var rest :- DecodeUriComponent(s[3 * n..]);
              Ok([c] + rest)
  }

  /** Text without `%` decodes to itself. */
  lemma {:induction false} DecodeUnescaped(s: string)
    requires forall i | 0 <= i < |s| :: s[i] != '%'
    ensures DecodeUriComponent(s) == Ok(s)
  {
    if s != [] {
      DecodeUnescaped(s[1..]);
      assert [s[0]] + s[1..] == s;
    }
  }

  /** The characters Uri.EscapeDataString leaves as they are (RFC 3986 section 2.3). */
  predicate IsUnreserved(c: char) {
    IsAsciiUpper(c) || IsAsciiLower(c) || IsAsciiDigit(c) || c == '-' || c == '.' || c == '_' || c == '~'
  }

  /** Uri.EscapeDataString: unreserved characters kept, every other character's UTF-8 bytes escaped. */
  function EscapeDataString(s: string): (e: string)
    ensures forall i | 0 <= i < |e| :: e[i] != ';' && e[i] != ' '
    ensures |e| >= |s|
  {
    if s == [] then []
    else
      var head := if IsUnreserved(s[0]) then [s[0]] else EscapeBytes(Utf8.EncodeChar(s[0]));
      assert forall i | 0 <= i < |head| :: head[i] != ';' && head[i] != ' ' by {
        if !IsUnreserved(s[0]) {
          EscapeBytesChars(Utf8.EncodeChar(s[0]));
        }
      }
      head + EscapeDataString(s[1..])
  }

  lemma {:induction false} EscapeBytesChars(bs: seq<Byte>)
    ensures forall i | 0 <= i < |EscapeBytes(bs)| :: EscapeBytes(bs)[i] == '%' || IsHexDigit(EscapeBytes(bs)[i])
  {
    if bs != [] {
      EscapeBytesChars(bs[1..]);
      var e := EscapeBytes(bs);
      assert e == Escape(bs[0]) + EscapeBytes(bs[1..]);
      forall i | 0 <= i < |e|
        ensures e[i] == '%' || IsHexDigit(e[i])
      {
        if i >= 3 {
          assert e[i] == EscapeBytes(bs[1..])[i - 3];
        }
      }
    }
  }

  /** One escaped character decodes back to the character. */
  lemma DecodeEscapedChar(c: char, rest: string)
    ensures var bs := Utf8.EncodeChar(c);
      && ReadEscapes(EscapeBytes(bs) + rest, 1) == Some(bs[..1])
      && Utf8.SequenceLength(bs[0]) == |bs|
      && ReadEscapes(EscapeBytes(bs) + rest, |bs|) == Some(bs)
      && Utf8.DecodeFirst(bs) == Some((c, |bs|))
      && (EscapeBytes(bs) + rest)[3 * |bs|..] == rest
  {
    var bs := Utf8.EncodeChar(c);
    ReadEscapesOfEscapeBytes(bs, rest, 1);
    ReadEscapesOfEscapeBytes(bs, rest, |bs|);
    assert bs[..|bs|] == bs;
    Utf8.DecodeFirstOfEncodeChar(c, []);
    assert bs + [] == bs;
  }

  /** decodeURIComponent undoes Uri.EscapeDataString. */
  lemma {:induction false} DecodeEscapeDataString(s: string)
    ensures DecodeUriComponent(EscapeDataString(s)) == Ok(s)
  {
    if s != [] {
      var tail := EscapeDataString(s[1..]);
      DecodeEscapeDataString(s[1..]);
      if IsUnreserved(s[0]) {
        assert EscapeDataString(s) == [s[0]] + tail;
        assert ([s[0]] + tail)[1..] == tail;
      } else {
        var bs := Utf8.EncodeChar(s[0]);
        assert EscapeDataString(s) == EscapeBytes(bs) + tail;
        DecodeEscapedChar(s[0], tail);
        assert (EscapeBytes(bs) + tail)[0] == '%';
      }
      assert [s[0]] + s[1..] == s;
    }
  }

  // ---------------------------------------------------------------------------
  // getCookie
  // ---------------------------------------------------------------------------

  predicate IsRegexMetacharacter(c: char) {
    || c == '\\' || c == '^' || c == '$' || c == '.' || c == '|' || c == '?' || c == '*'
    || c == '+' || c == '(' || c == ')' || c == '[' || c == ']' || c == '{' || c == '}'
  }

  /** The name is spliced into a regular expression unescaped; it matches literally only without metacharacters. */
  predicate IsRegexLiteral(name: string) {
    forall i | 0 <= i < |name| :: !IsRegexMetacharacter(name[i])
  }

  /** `name=` followed by at least one character other than `;` at the start of `t`. */
  predicate StartsWithEntry(t: string, name: string) {
    && |t| > |name| + 1
    && t[..|name|] == name
    && t[|name|] == '='
    && t[|name| + 1] != ';'
  }

  /** The pattern `(^| )name=([^;]+)` matches with `name` beginning at `j`. */
  predicate MatchesAt(cookie: string, name: string, j: nat) {
    && j < |cookie|
    && (j == 0 || cookie[j - 1] == ' ')
    && StartsWithEntry(cookie[j..], name)
  }

  /** The longest prefix of `t` without `;`: what `[^;]+` takes greedily. */
  function TakeValue(t: string): (v: string)
    ensures v <= t
    ensures forall i | 0 <= i < |v| :: v[i] != ';'
    ensures |v| == |t| || t[|v|] == ';'
  {
    if t == [] || t[0] == ';' then [] else [t[0]] + TakeValue(t[1..])
  }

  /** The leftmost place at or after `j` where the pattern matches. */
  function FindEntry(cookie: string, name: string, j: nat): (r: Option<nat>)
    ensures r.Some? ==> j <= r.value && MatchesAt(cookie, name, r.value)
    ensures r.Some? ==> forall k | j <= k < r.value :: !MatchesAt(cookie, name, k)
    ensures r.None? ==> forall k | j <= k :: !MatchesAt(cookie, name, k)
    decreases |cookie| - j
  {
    if j >= |cookie| then None
    else if MatchesAt(cookie, name, j) then Some(j)
    else FindEntry(cookie, name, j + 1)
  }

  /** The text captured by `([^;]+)` in the leftmost match, if there is one. */
  function CookieValue(cookie: string, name: string): Option<string>
  {
    match FindEntry(cookie, name, 0)
    case None => None
    case Some(j) => Some(TakeValue(cookie[j..][|name| + 1..]))
  }

  /** No value exactly when the pattern matches nowhere; otherwise the value after the leftmost match. */
  lemma CookieValueIsLeftmostMatch(cookie: string, name: string)
    ensures CookieValue(cookie, name).None? <==> forall j :: !MatchesAt(cookie, name, j)
    ensures CookieValue(cookie, name).Some? ==> exists j: nat ::
      && MatchesAt(cookie, name, j)
      && (forall k | 0 <= k < j :: !MatchesAt(cookie, name, k))
      && CookieValue(cookie, name).value == TakeValue(cookie[j..][|name| + 1..])
  {
    match FindEntry(cookie, name, 0)
    case None =>
    case Some(j) =>
      assert MatchesAt(cookie, name, j);
  }

  /**
    getCookie on the text of `document.cookie`: the URI-decoded value of the leftmost
    match, null (None) when there is none, and the URIError decodeURIComponent throws.
   */
  function GetCookie(cookie: string, name: string): (r: Result<Option<string>>)
    requires IsRegexLiteral(name)
    ensures r == Ok(None) <==> CookieValue(cookie, name).None?
    ensures r.Ok? && r.value.Some? ==> DecodeUriComponent(CookieValue(cookie, name).value) == Ok(r.value.value)
  {
    match CookieValue(cookie, name)
    case None => Ok(None)
    case Some(raw) =>
      var value :- DecodeUriComponent(raw);
      Ok(Some(value))
  }

  /** `document.cookie`: the cookies as `name=value` pairs separated by "; ". */
  function CookieString(jar: seq<(string, string)>): string
  {
    if jar == [] then ""
    else if |jar| == 1 then jar[0].0 + "=" + jar[0].1
    else jar[0].0 + "=" + jar[0].1 + "; " + CookieString(jar[1..])
  }

  /** Names without `=`, `;` or spaces, and non-empty values without `;` or spaces. */
  predicate WellFormedJar(jar: seq<(string, string)>) {
    forall k | 0 <= k < |jar| ::
      && (forall i | 0 <= i < |jar[k].0| :: jar[k].0[i] != '=' && jar[k].0[i] != ';' && jar[k].0[i] != ' ')
      && jar[k].1 != []
      && (forall i | 0 <= i < |jar[k].1| :: jar[k].1[i] != ';' && jar[k].1[i] != ' ')
  }

  predicate NoEquals(s: string) {
    forall i | 0 <= i < |s| :: s[i] != '='
  }

  /** An entry `n=v` matches `name` at its start exactly when `n` is `name`. */
  lemma EntryStart(n: string, v: string, rest: string, name: string)
    requires NoEquals(n) && NoEquals(name)
    requires v != [] && v[0] != ';'
    ensures StartsWithEntry(n + "=" + v + rest, name) <==> n == name
  {
    var t := n + "=" + v + rest;
    assert t[|n|] == '=';
    if n == name {
      assert t[..|n|] == n;
      assert t[|n| + 1] == v[0];
    }
  }

  /** The value of an entry `name=v` followed by `;` or nothing. */
  lemma EntryValue(name: string, v: string, rest: string)
    requires forall i | 0 <= i < |v| :: v[i] != ';'
    requires rest == [] || rest[0] == ';'
    ensures TakeValue((name + "=" + v + rest)[|name| + 1..]) == v
  {
    assert (name + "=" + v + rest)[|name| + 1..] == v + rest;
    TakeValuePrefix(v, rest);
  }

  lemma {:induction false} TakeValuePrefix(v: string, rest: string)
    requires forall i | 0 <= i < |v| :: v[i] != ';'
    requires rest == [] || rest[0] == ';'
    ensures TakeValue(v + rest) == v
  {
    if v == [] {
      assert v + rest == rest;
    } else {
      assert (v + rest)[1..] == v[1..] + rest;
      TakeValuePrefix(v[1..], rest);
    }
  }

  /**
    In `a; b` with no space in `a`, the pattern cannot match inside `a` after its
    start, and it matches inside `b` exactly where it matches in `b` alone.
   */
  lemma MatchesInTail(a: string, b: string, name: string, j: nat)
    requires forall i | 0 <= i < |a| :: a[i] != ' '
    ensures 0 < j <= |a| + 1 ==> !MatchesAt(a + "; " + b, name, j)
    ensures MatchesAt(a + "; " + b, name, |a| + 2 + j) <==> MatchesAt(b, name, j)
    ensures j <= |b| ==> (a + "; " + b)[|a| + 2 + j..] == b[j..]
  {
    var c := a + "; " + b;
    if 0 < j <= |a| + 1 {
      if j - 1 < |a| {
        assert c[j - 1] == a[j - 1];
      } else {
        assert c[j - 1] == ';';
      }
    }
    if j <= |b| {
      assert c[|a| + 2 + j..] == b[j..];
      if j > 0 {
        assert c[|a| + 2 + j - 1] == b[j - 1];
      } else {
        assert c[|a| + 1] == ' ';
      }
    }
  }

  /** The value of the first cookie in `jar` named `name`. */
  function JarLookup(jar: seq<(string, string)>, name: string): (r: Option<string>)
    ensures r.None? <==> forall k | 0 <= k < |jar| :: jar[k].0 != name
    ensures r.Some? ==> (name, r.value) in jar
  {
    if jar == [] then None
    else if jar[0].0 == name then Some(jar[0].1)
    else
      var r := JarLookup(jar[1..], name);
      assert forall k | 1 <= k < |jar| :: jar[k] == jar[1..][k - 1];
      r
  }

  /** The first entry of a well-formed jar, `n=v`, has no space and no `=` in `n`. */
  lemma FirstEntry(jar: seq<(string, string)>)
    requires WellFormedJar(jar) && jar != []
    ensures NoEquals(jar[0].0) && jar[0].1 != [] && jar[0].1[0] != ';'
    ensures forall i | 0 <= i < |jar[0].1| :: jar[0].1[i] != ';'
    ensures var a := jar[0].0 + "=" + jar[0].1; forall i | 0 <= i < |a| :: a[i] != ' '
    ensures CookieString(jar) == jar[0].0 + "=" + jar[0].1 + (if |jar| == 1 then "" else "; " + CookieString(jar[1..]))
    ensures |jar| > 1 ==> WellFormedJar(jar[1..])
  {
    var a := jar[0].0 + "=" + jar[0].1;
    forall i | 0 <= i < |a|
      ensures a[i] != ' '
    {
      if i > |jar[0].0| {
        assert a[i] == jar[0].1[i - |jar[0].0| - 1];
      }
    }
    if |jar| > 1 {
      forall k | 0 <= k < |jar[1..]|
        ensures jar[1..][k] == jar[k + 1]
      {
      }
    }
  }

  lemma HeadEntryMatches(jar: seq<(string, string)>, name: string)
    requires WellFormedJar(jar) && NoEquals(name) && jar != [] && jar[0].0 == name
    ensures CookieValue(CookieString(jar), name) == Some(jar[0].1)
  {
    FirstEntry(jar);
    var rest := if |jar| == 1 then "" else "; " + CookieString(jar[1..]);
    var c := CookieString(jar);
    EntryStart(name, jar[0].1, rest, name);
    EntryValue(name, jar[0].1, rest);
    assert c[0..] == c;
    assert MatchesAt(c, name, 0);
    assert FindEntry(c, name, 0) == Some(0);
  }

  lemma OnlyEntryOther(jar: seq<(string, string)>, name: string)
    requires WellFormedJar(jar) && NoEquals(name) && |jar| == 1 && jar[0].0 != name
    ensures CookieValue(CookieString(jar), name).None?
  {
    FirstEntry(jar);
    var c := CookieString(jar);
    assert c == jar[0].0 + "=" + jar[0].1 + "";
    EntryStart(jar[0].0, jar[0].1, "", name);
    forall j: nat
      ensures !MatchesAt(c, name, j)
    {
      if j == 0 {
        assert c[0..] == c;
      } else if j < |c| {
        assert c[j - 1] != ' ';
      }
    }
  }

  /** In `a; b` with no space in `a`, the search from inside `b` finds what it finds in `b`, shifted. */
  lemma {:induction false} FindEntryInTail(a: string, b: string, name: string, j: nat)
    requires forall i | 0 <= i < |a| :: a[i] != ' '
    requires j <= |b|
    ensures FindEntry(a + "; " + b, name, |a| + 2 + j)
      == match FindEntry(b, name, j) case None => None case Some(k) => Some(|a| + 2 + k)
    decreases |b| - j
  {
    MatchesInTail(a, b, name, j);
    if j < |b| {
      FindEntryInTail(a, b, name, j + 1);
    }
  }

  /** In `a; b` with no space in `a` and no match at its start, the search skips `a; `. */
  lemma {:induction false} FindEntryPastHead(a: string, b: string, name: string, j: nat)
    requires forall i | 0 <= i < |a| :: a[i] != ' '
    requires !StartsWithEntry(a + "; " + b, name)
    requires j <= |a| + 2
    ensures FindEntry(a + "; " + b, name, j) == FindEntry(a + "; " + b, name, |a| + 2)
    decreases |a| + 2 - j
  {
    var c := a + "; " + b;
    if j < |a| + 2 {
      if j == 0 {
        assert c[0..] == c;
      } else {
        MatchesInTail(a, b, name, j);
      }
      FindEntryPastHead(a, b, name, j + 1);
    }
  }

  /** Past a leading entry `a; ` that does not match, the search goes on in the rest. */
  lemma SkipEntry(a: string, b: string, name: string)
    requires forall i | 0 <= i < |a| :: a[i] != ' '
    requires !StartsWithEntry(a + "; " + b, name)
    ensures CookieValue(a + "; " + b, name) == CookieValue(b, name)
  {
    var c := a + "; " + b;
    FindEntryPastHead(a, b, name, 0);
    FindEntryInTail(a, b, name, 0);
    assert c[|a| + 2..] == b;
    CookieValueOfSuffix(c, b, name, |a| + 2);
  }

  /** When every match in `c` is a match in its suffix `b`, shifted, both give the same value. */
  lemma CookieValueOfSuffix(c: string, b: string, name: string, off: nat)
    requires off <= |c| && c[off..] == b
    requires FindEntry(c, name, 0) == match FindEntry(b, name, 0) case None => None case Some(k) => Some(off + k)
    ensures CookieValue(c, name) == CookieValue(b, name)
  {
    match FindEntry(b, name, 0)
    case None =>
    case Some(jb) =>
      assert c[off + jb..] == b[jb..];
  }

  lemma TailEntries(jar: seq<(string, string)>, name: string)
    requires WellFormedJar(jar) && NoEquals(name) && |jar| >= 2 && jar[0].0 != name
    ensures CookieValue(CookieString(jar), name) == CookieValue(CookieString(jar[1..]), name)
  {
    FirstEntry(jar);
    var a := jar[0].0 + "=" + jar[0].1;
    var b := CookieString(jar[1..]);
    assert CookieString(jar) == a + "; " + b;
    EntryStart(jar[0].0, jar[0].1, "; " + b, name);
    assert a + "; " + b == jar[0].0 + "=" + jar[0].1 + ("; " + b);
    SkipEntry(a, b, name);
  }

  /** Reading back `document.cookie` finds the first cookie of that name, if any. */
  lemma {:induction false} CookieValueOfJar(jar: seq<(string, string)>, name: string)
    requires WellFormedJar(jar) && NoEquals(name)
    ensures CookieValue(CookieString(jar), name) == JarLookup(jar, name)
  {
    if jar == [] {
    } else if jar[0].0 == name {
      HeadEntryMatches(jar, name);
    } else if |jar| == 1 {
      OnlyEntryOther(jar, name);
    } else {
      FirstEntry(jar);
      CookieValueOfJar(jar[1..], name);
      TailEntries(jar, name);
    }
  }

  /**
    The session cookies the server sets (values escaped with Uri.EscapeDataString) are
    read back by getCookie as they were set.
   */
  lemma GetCookieReadsEscapedValue(jar: seq<(string, string)>, name: string, value: string)
    requires WellFormedJar(jar) && NoEquals(name) && IsRegexLiteral(name)
    requires JarLookup(jar, name) == Some(EscapeDataString(value))
    ensures GetCookie(CookieString(jar), name) == Ok(Some(value))
  {
    CookieValueOfJar(jar, name);
    DecodeEscapeDataString(value);
  }

  // ---------------------------------------------------------------------------
  // getUserInfo
  // ---------------------------------------------------------------------------

  datatype UserInfo = UserInfo(username: string, email: string, dateJoined: string)

  const UserInfoCookie: string := "userInfo"

  /**
    getUserInfo: null when the `userInfo` cookie is absent or empty; otherwise what
    `parse` (atob, then JSON.parse) makes of it, null when that fails. A URIError
    from getCookie is not caught.
   */
  function GetUserInfo(cookie: string, parse: string -> Option<UserInfo>): (r: Result<Option<UserInfo>>)
    ensures CookieValue(cookie, UserInfoCookie).None? ==> r == Ok(None)
    ensures r.Ok? && r.value.Some? ==>
      exists text :: text != "" && GetCookie(cookie, UserInfoCookie) == Ok(Some(text)) && parse(text) == r.value
  {
    assert IsRegexLiteral(UserInfoCookie);
    var text :- GetCookie(cookie, UserInfoCookie);
    if text.None? || text.value == "" then Ok(None) else Ok(parse(text.value))
  }

  /** Without a `userInfo` cookie in the jar there is no user info. */
  lemma NoUserInfoCookie(jar: seq<(string, string)>, parse: string -> Option<UserInfo>)
    requires WellFormedJar(jar)
    requires JarLookup(jar, UserInfoCookie).None?
    ensures GetUserInfo(CookieString(jar), parse) == Ok(None)
  {
    CookieValueOfJar(jar, UserInfoCookie);
  }

  // ---------------------------------------------------------------------------
  // toQueryString
  // ---------------------------------------------------------------------------

  /**
    An element of an array value, already rendered: String(v) for a scalar and
    JSON.stringify(v) for an object (an undefined element renders "undefined", a null
    one "null").
   */
  datatype Element = ScalarElement(text: string) | ObjectElement(json: string)

  /** A parameter value: absent, a scalar (as String(v)), an object (as JSON.stringify(v)) or an array. */
  datatype ParamValue =
    | Undefined
    | Null
    | Scalar(text: string)
    | Object(json: string)
    | Array(elements: seq<Element>)

  function ElementText(e: Element): string {
    match e
    case ScalarElement(t) => t
    case ObjectElement(j) => j
  }

  /** One pair per element of an array, under the same key and in order. */
  function ElementPairs(key: string, es: seq<Element>): (ps: seq<(string, string)>)
    ensures |ps| == |es|
  {
    if es == [] then [] else ElementPairs(key, es[..|es| - 1]) + [(key, ElementText(es[|es| - 1]))]
  }

  /** An array value gives one pair per element, under its key and in the array's order. */
  lemma {:induction false} ElementPairsInOrder(key: string, es: seq<Element>)
    ensures forall i | 0 <= i < |es| :: ElementPairs(key, es)[i] == (key, ElementText(es[i]))
  {
    if es != [] {
      var init := es[..|es| - 1];
      ElementPairsInOrder(key, init);
      forall i | 0 <= i < |es|
        ensures ElementPairs(key, es)[i] == (key, ElementText(es[i]))
      {
        if i < |init| {
          assert ElementPairs(key, es)[i] == ElementPairs(key, init)[i];
          assert init[i] == es[i];
        }
      }
    }
  }

  /** The pairs one parameter contributes. */
  function ParamPairs(key: string, value: ParamValue): seq<(string, string)> {
    match value
    case Undefined => []
    case Null => []
    case Scalar(t) => [(key, t)]
    case Object(j) => [(key, j)]
    case Array(es) => ElementPairs(key, es)
  }

  /** The pairs appended for `params`, in the order of its entries. */
  function QueryPairs(params: seq<(string, ParamValue)>): seq<(string, string)> {
    if params == [] then [] else ParamPairs(params[0].0, params[0].1) + QueryPairs(params[1..])
  }

  lemma {:induction false} QueryPairsAppend(p: seq<(string, ParamValue)>, q: seq<(string, ParamValue)>)
    ensures QueryPairs(p + q) == QueryPairs(p) + QueryPairs(q)
  {
    if p == [] {
      assert p + q == q;
    } else {
      assert (p + q)[0] == p[0];
      assert (p + q)[1..] == p[1..] + q;
      QueryPairsAppend(p[1..], q);
    }
  }

  /** One more entry appends its pairs at the end. */
  lemma QueryPairsSnoc(init: seq<(string, ParamValue)>, last: (string, ParamValue))
    ensures QueryPairs(init + [last]) == QueryPairs(init) + ParamPairs(last.0, last.1)
  {
    QueryPairsAppend(init, [last]);
    assert [last][1..] == [];
  }

  /** Undefined and null values contribute nothing, wherever they stand. */
  lemma AbsentValueSkipped(params: seq<(string, ParamValue)>, i: nat)
    requires i < |params| && (params[i].1.Undefined? || params[i].1.Null?)
    ensures QueryPairs(params) == QueryPairs(params[..i] + params[i + 1..])
  {
    var before, after := params[..i], params[i + 1..];
    assert params == before + ([params[i]] + after);
    assert QueryPairs([params[i]] + after) == QueryPairs(after) by {
      QueryPairsAppend([params[i]], after);
      assert [params[i]][1..] == [];
    }
    QueryPairsAppend(before, [params[i]] + after);
    QueryPairsAppend(before, after);
  }

  /** Every pair's key is the key of a present parameter, and its value that parameter's text or an element's. */
  lemma {:induction false} QueryPairsComeFromParams(params: seq<(string, ParamValue)>)
    ensures forall p | p in QueryPairs(params) :: exists i | 0 <= i < |params| ::
      p.0 == params[i].0 && p in ParamPairs(params[i].0, params[i].1)
  {
    if params != [] {
      var rest := params[1..];
      QueryPairsComeFromParams(rest);
      forall p | p in QueryPairs(params)
        ensures exists i | 0 <= i < |params| :: p.0 == params[i].0 && p in ParamPairs(params[i].0, params[i].1)
      {
        if p in QueryPairs(rest) {
          var i :| 0 <= i < |rest| && p.0 == rest[i].0 && p in ParamPairs(rest[i].0, rest[i].1);
          assert rest[i] == params[i + 1];
        } else {
          var first := params[0];
          assert p in ParamPairs(first.0, first.1);
          assert p.0 == first.0 by {
            if first.1.Array? {
              ElementPairsInOrder(first.0, first.1.elements);
              var i :| 0 <= i < |first.1.elements| && ElementPairs(first.0, first.1.elements)[i] == p;
            }
          }
        }
      }
    }
  }

  /** URLSearchParams: an ordered list of name-value pairs that `append` extends. */
  class SearchParams {
    var list: seq<(string, string)>

    constructor ()
      ensures list == []
    {
      list := [];
    }

    method Append(name: string, value: string)
      modifies this
      ensures list == old(list) + [(name, value)]
    {
      list := list + [(name, value)];
    }

    /** toString: the list serialised as application/x-www-form-urlencoded. */
    function ToString(): string
      reads this
    {
      Serialize(list)
    }
  }

  /** The forEach callback for one entry: its pairs appended to `search`, elements one by one. */
  method AppendParam(search: SearchParams, key: string, value: ParamValue)
    modifies search
    ensures search.list == old(search.list) + ParamPairs(key, value)
  {
    match value {
      case Undefined =>
      case Null =>
      case Array(es) =>
        var j := 0;
        while j < |es|
          invariant 0 <= j <= |es|
          invariant search.list == old(search.list) + ElementPairs(key, es[..j])
        {
          match es[j] {
            case ObjectElement(json) => search.Append(key, json);
            case ScalarElement(text) => search.Append(key, text);
          }
          assert es[..j + 1][..j] == es[..j];
          j := j + 1;
        }
        assert es[..j] == es;
      case Object(json) =>
        search.Append(key, json);
      case Scalar(text) =>
        search.Append(key, text);
    }
  }

  /** toQueryString: the pairs of `params` appended one by one, then serialised. */
  method ToQueryString(params: seq<(string, ParamValue)>) returns (query: string)
    ensures query == Serialize(QueryPairs(params))
  {
    var search := new SearchParams();
    var i := 0;
    while i < |params|
      invariant 0 <= i <= |params|
      invariant search.list == QueryPairs(params[..i])
    {
      assert params[..i + 1] == params[..i] + [params[i]];
      QueryPairsSnoc(params[..i], params[i]);
      AppendParam(search, params[i].0, params[i].1);
      i := i + 1;
    }
    assert params[..i] == params;
    query := search.ToString();
  }

  // ---------------------------------------------------------------------------
  // URLSearchParams serialisation (application/x-www-form-urlencoded, WHATWG URL
  // standard section 5.2) and the parser that inverts it
  // ---------------------------------------------------------------------------

  /** The bytes the urlencoded byte serializer leaves as they are. */
  predicate IsFormSafe(b: Byte) {
    b == 0x2A || b == 0x2D || b == 0x2E || b == 0x5F
    || 0x30 <= b <= 0x39 || 0x41 <= b <= 0x5A || 0x61 <= b <= 0x7A
  }

  function FormEncodeByte(b: Byte): (s: string)
    ensures forall i | 0 <= i < |s| :: s[i] != '&' && s[i] != '=' && s[i] != ';'
  {
    if b == 0x20 then "+" else if IsFormSafe(b) then [b as char] else Escape(b)
  }

  function FormEncodeBytes(bs: seq<Byte>): (s: string)
    ensures forall i | 0 <= i < |s| :: s[i] != '&' && s[i] != '='
  {
    if bs == [] then []
    else
      var head := FormEncodeByte(bs[0]);
      var tail := FormEncodeBytes(bs[1..]);
      assert forall i | |head| <= i < |head + tail| :: (head + tail)[i] == tail[i - |head|];
      head + tail
  }

  /** The urlencoded serialisation of one name or value. */
  function FormEncode(s: string): (e: string)
    ensures forall i | 0 <= i < |e| :: e[i] != '&' && e[i] != '='
  {
    FormEncodeBytes(Utf8.Encode(s))
  }

  /** `name=value` pairs joined with `&`. */
  function Serialize(pairs: seq<(string, string)>): string
  {
    if pairs == [] then ""
    else if |pairs| == 1 then FormEncode(pairs[0].0) + "=" + FormEncode(pairs[0].1)
    else FormEncode(pairs[0].0) + "=" + FormEncode(pairs[0].1) + "&" + Serialize(pairs[1..])
  }

  function PrependBytes(h: seq<Byte>, r: Option<seq<Byte>>): Option<seq<Byte>> {
    match r
    case None => None
    case Some(rest) => Some(h + rest)
  }

  /**
    Percent-decoding of urlencoded text into bytes: `+` is a space, `%HH` a byte, any
    other character its UTF-8 bytes (a `%` without two hex digits stays as it is).
   */
  function FormDecodeBytes(s: string): Option<seq<Byte>>
    decreases |s|
  {
    if s == [] then Some([])
    else if s[0] == '+' then PrependBytes([0x20], FormDecodeBytes(s[1..]))
    else if |s| >= 3 && s[0] == '%' && IsHexDigit(s[1]) && IsHexDigit(s[2]) then
      PrependBytes([HexValue(s[1]) * 16 + HexValue(s[2])], FormDecodeBytes(s[3..]))
    else PrependBytes(Utf8.EncodeChar(s[0]), FormDecodeBytes(s[1..]))
  }

  function FormDecode(s: string): Option<string> {
    match FormDecodeBytes(s)
    case None => None
    case Some(bs) => Utf8.Decode(bs)
  }

  lemma {:induction false} FormDecodeBytesOfEncode(bs: seq<Byte>)
    ensures FormDecodeBytes(FormEncodeBytes(bs)) == Some(bs)
  {
    if bs != [] {
      var head := FormEncodeByte(bs[0]);
      var s := head + FormEncodeBytes(bs[1..]);
      FormDecodeBytesOfEncode(bs[1..]);
      assert s[|head|..] == FormEncodeBytes(bs[1..]);
      assert [bs[0]] + bs[1..] == bs;
    }
  }

  /** Decoding a serialised name or value gives it back. */
  lemma FormDecodeEncode(s: string)
    ensures FormDecode(FormEncode(s)) == Some(s)
  {
    FormDecodeBytesOfEncode(Utf8.Encode(s));
    Utf8.DecodeEncode(s);
  }

  function IndexOfChar(s: string, c: char): (r: Option<nat>)
    ensures r.Some? ==> r.value < |s| && s[r.value] == c && forall i | 0 <= i < r.value :: s[i] != c
    ensures r.None? ==> forall i | 0 <= i < |s| :: s[i] != c
  {
    if s == [] then None
    else if s[0] == c then Some(0)
    else match IndexOfChar(s[1..], c)
      case None => None
      case Some(i) => Some(i + 1)
  }

  /** A name-value pair: split at the first `=`, a missing one giving an empty value. */
  function ParsePair(part: string): Option<(string, string)> {
    var (name, value) := match IndexOfChar(part, '=')
      case None => (part, "")
      case Some(i) => (part[..i], part[i + 1..]);
    match (FormDecode(name), FormDecode(value))
    case (Some(n), Some(v)) => Some((n, v))
    case _ => None
  }

  /** The application/x-www-form-urlencoded parser: `&`-separated parts, empty ones skipped. */
  function ParseQuery(s: string): Option<seq<(string, string)>>
    decreases |s|
  {
    if s == [] then Some([])
    else
      var (part, rest) := match IndexOfChar(s, '&')
        case None => (s, "")
        case Some(i) => (s[..i], s[i + 1..]);
      match ParseQuery(rest)
      case None => None
      case Some(tail) =>
        if part == [] then Some(tail)
        else match ParsePair(part)
          case None => None
          case Some(p) => Some([p] + tail)
  }

  /** Past a prefix without `c`, the first `c` is the first one of the rest. */
  lemma {:induction false} IndexOfCharAfter(x: string, y: string, c: char)
    requires forall i | 0 <= i < |x| :: x[i] != c
    ensures IndexOfChar(x + y, c) == match IndexOfChar(y, c) case None => None case Some(i) => Some(|x| + i)
  {
    if x == [] {
      assert x + y == y;
    } else {
      assert (x + y)[0] == x[0];
      assert (x + y)[1..] == x[1..] + y;
      IndexOfCharAfter(x[1..], y, c);
    }
  }

  /** One serialised pair `name=value`: no `&` in it, and its first `=` after the name. */
  lemma EncodedPart(name: string, value: string)
    ensures var part := FormEncode(name) + "=" + FormEncode(value);
      && (forall i | 0 <= i < |part| :: part[i] != '&')
      && IndexOfChar(part, '=') == Some(|FormEncode(name)|)
      && part[..|FormEncode(name)|] == FormEncode(name)
      && part[|FormEncode(name)| + 1..] == FormEncode(value)
  {
    var n, v := FormEncode(name), FormEncode(value);
    var part := n + "=" + v;
    assert part == n + ("=" + v);
    forall i | 0 <= i < |part|
      ensures part[i] != '&'
    {
      if i < |n| {
        assert part[i] == n[i];
      } else if i > |n| {
        assert part[i] == v[i - |n| - 1];
      }
    }
    IndexOfCharAfter(n, "=" + v, '=');
    assert IndexOfChar("=" + v, '=') == Some(0);
    assert part[..|n|] == n;
    assert part[|n| + 1..] == v;
  }

  lemma ParseEncodedPair(name: string, value: string)
    ensures ParsePair(FormEncode(name) + "=" + FormEncode(value)) == Some((name, value))
  {
    EncodedPart(name, value);
    FormDecodeEncode(name);
    FormDecodeEncode(value);
  }

  lemma ParseLastPair(name: string, value: string)
    ensures ParseQuery(FormEncode(name) + "=" + FormEncode(value)) == Some([(name, value)])
  {
    var part := FormEncode(name) + "=" + FormEncode(value);
    EncodedPart(name, value);
    ParseEncodedPair(name, value);
    IndexOfCharAfter(part, "", '&');
    assert part + "" == part;
    assert ParseQuery("") == Some([]);
    assert [(name, value)] + [] == [(name, value)];
  }

  lemma ParseFirstPair(name: string, value: string, rest: string)
    ensures ParseQuery(FormEncode(name) + "=" + FormEncode(value) + "&" + rest)
      == match ParseQuery(rest) case None => None case Some(tail) => Some([(name, value)] + tail)
  {
    var part := FormEncode(name) + "=" + FormEncode(value);
    var s := part + ("&" + rest);
    assert part + "&" + rest == s;
    EncodedPart(name, value);
    ParseEncodedPair(name, value);
    IndexOfCharAfter(part, "&" + rest, '&');
    assert IndexOfChar(s, '&') == Some(|part|);
    assert s[..|part|] == part && s[|part| + 1..] == rest;
  }

  /** Parsing a serialised query string gives back its pairs, in order. */
  lemma {:induction false} ParseSerialize(pairs: seq<(string, string)>)
    ensures ParseQuery(Serialize(pairs)) == Some(pairs)
  {
    if |pairs| == 1 {
      ParseLastPair(pairs[0].0, pairs[0].1);
      assert [(pairs[0].0, pairs[0].1)] == pairs;
    } else if |pairs| > 1 {
      var name, value := pairs[0].0, pairs[0].1;
      var rest := Serialize(pairs[1..]);
      calc == {
        ParseQuery(Serialize(pairs));
        ParseQuery(FormEncode(name) + "=" + FormEncode(value) + "&" + rest);
        { ParseFirstPair(name, value, rest); ParseSerialize(pairs[1..]); }
        Some([(name, value)] + pairs[1..]);
        { assert [(name, value)] + pairs[1..] == pairs; }
        Some(pairs);
      }
    }
  }

  /** The query string toQueryString builds parses back into the parameters' pairs. */
  lemma QueryStringRoundTrip(params: seq<(string, ParamValue)>)
    ensures ParseQuery(Serialize(QueryPairs(params))) == Some(QueryPairs(params))
  {
    ParseSerialize(QueryPairs(params));
  }
}
