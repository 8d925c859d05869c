/**
 * The string operations the route handlers apply: JavaScript's `\s` class, the
 * `name.replace(/\s+/g, '').toLowerCase() + googleId.slice(-4)` username of a Google
 * user, `Date.now().toString()`, and `startsWith('Bearer ')` / `substring(7)`.
 */
module Text {
  import opened Options

  /** JavaScript's `\s`: the WhiteSpace and LineTerminator code points of ECMAScript. */
  predicate IsWhitespace(c: char) {
    c == '\t' || c == '\n' || c == '\U{000B}' || c == '\U{000C}' || c == '\r' || c == ' ' ||
    c == '\U{00A0}' || c == '\U{1680}' || ('\U{2000}' <= c <= '\U{200A}') ||
    c == '\U{2028}' || c == '\U{2029}' || c == '\U{202F}' || c == '\U{205F}' ||
    c == '\U{3000}' || c == '\U{FEFF}'
  }

  predicate NoWhitespace(s: string) {
    forall i :: 0 <= i < |s| ==> !IsWhitespace(s[i])
  }

  /** `s.replace(/\s+/g, '')`: every run of whitespace removed, everything else kept in order. */
  function RemoveWhitespace(s: string): (r: string)
    ensures |r| <= |s|
    ensures NoWhitespace(r)
    ensures NoWhitespace(s) ==> r == s
  {
    if s == [] then []
    else
      (if IsWhitespace(s[0]) then [] else [s[0]]) + RemoveWhitespace(s[1..])
  }

  /**
   * Removing whitespace deletes every occurrence of each whitespace character and keeps
   * every occurrence of every other character.
   */
  lemma {:induction false} RemoveWhitespaceCounts(s: string, c: char)
    ensures multiset(RemoveWhitespace(s))[c] == if IsWhitespace(c) then 0 else multiset(s)[c]
  {
    if s != [] {
      RemoveWhitespaceCounts(s[1..], c);
      assert s == [s[0]] + s[1..];
      assert multiset(s) == multiset([s[0]]) + multiset(s[1..]);
    }
  }

  /** Removing whitespace distributes over concatenation, so it acts character by character. */
  lemma {:induction false} RemoveWhitespaceAppend(a: string, b: string)
    ensures RemoveWhitespace(a + b) == RemoveWhitespace(a) + RemoveWhitespace(b)
  {
    if a == [] {
      assert a + b == b;
    } else {
      assert (a + b)[1..] == a[1..] + b;
      RemoveWhitespaceAppend(a[1..], b);
    }
  }

  /** Removing whitespace twice is removing it once. */
  lemma RemoveWhitespaceIdempotent(s: string)
    ensures RemoveWhitespace(RemoveWhitespace(s)) == RemoveWhitespace(s)
  {
  }

  predicate IsAsciiUpper(c: char) {
    'A' <= c <= 'Z'
  }

  /** `toLowerCase` on one character, for the ASCII letters. */
  function LowerChar(c: char): (d: char)
    ensures !IsAsciiUpper(d)
    ensures IsAsciiUpper(c) ==> d as int == c as int + 32
    ensures !IsAsciiUpper(c) ==> d == c
  {
    if IsAsciiUpper(c) then (c as int + 32) as char else c
  }

  /** `s.toLowerCase()`, restricted to ASCII: each character lowered in place. */
  function ToLower(s: string): (r: string)
    ensures |r| == |s|
    ensures forall i :: 0 <= i < |s| ==> r[i] == LowerChar(s[i])
  {
    if s == [] then [] else [LowerChar(s[0])] + ToLower(s[1..])
  }

  /** Lowering a letter never makes or unmakes whitespace. */
  lemma LowerKeepsWhitespace(c: char)
    ensures IsWhitespace(LowerChar(c)) == IsWhitespace(c)
  {
  }

  /**
   * The order of `replace` and `toLowerCase` in the username expression does not matter:
   * stripping then lowering equals lowering then stripping.
   */
  lemma {:induction false} LowerRemoveCommute(s: string)
    ensures ToLower(RemoveWhitespace(s)) == RemoveWhitespace(ToLower(s))
  {
    if s != [] {
      LowerRemoveCommute(s[1..]);
      LowerKeepsWhitespace(s[0]);
      var head := if IsWhitespace(s[0]) then [] else [s[0]];
      ToLowerAppend(head, RemoveWhitespace(s[1..]));
      assert ToLower(s)[1..] == ToLower(s[1..]);
    }
  }

  lemma {:induction false} ToLowerAppend(a: string, b: string)
    ensures ToLower(a + b) == ToLower(a) + ToLower(b)
  {
    if a == [] {
      assert a + b == b;
    } else {
      assert (a + b)[1..] == a[1..] + b;
      ToLowerAppend(a[1..], b);
    }
  }

  /** `String.prototype.slice(start)`: a negative start counts from the end, clamped to 0. */
  function Slice(s: string, start: int): (r: string)
    ensures |r| <= |s| && s == s[..|s| - |r|] + r
    ensures start < 0 ==> |r| == if -start < |s| then -start else |s|
    ensures 0 <= start ==> |r| == if start < |s| then |s| - start else 0
  {
    var from := if start < 0 then (if |s| + start < 0 then 0 else |s| + start)
                else (if start > |s| then |s| else start);
    assert s == s[..from] + s[from..];
    s[from..]
  }

  /** `slice(-4)` is the last four characters, or the whole string when it is shorter. */
  lemma SliceLastFour(s: string)
    ensures |Slice(s, -4)| == if |s| < 4 then |s| else 4
    ensures s == s[..|s| - |Slice(s, -4)|] + Slice(s, -4)
  {
  }

  /**
   * The username given to a user first seen through Google sign-in: the display name with
   * whitespace removed and ASCII letters lowered, followed by the last (up to) four
   * characters of the Google subject id.
   */
  function GoogleUsername(name: string, googleId: string): (r: string)
    ensures var k := if |googleId| < 4 then |googleId| else 4;
            && |r| == |RemoveWhitespace(name)| + k
            && r[|r| - k..] == googleId[|googleId| - k..]
            && (forall i :: 0 <= i < |r| - k ==> !IsWhitespace(r[i]) && !IsAsciiUpper(r[i]))
  {
    var stripped := RemoveWhitespace(name);
    var lowered := ToLower(stripped);
    SliceLastFour(googleId);
    assert forall i :: 0 <= i < |lowered| ==> !IsWhitespace(lowered[i]) by {
      forall i | 0 <= i < |lowered| ensures !IsWhitespace(lowered[i]) {
        LowerKeepsWhitespace(stripped[i]);
      }
    }
    lowered + Slice(googleId, -4)
  }

  /**
   * The name part of a synthesised username is the display name with whitespace removed,
   * each character lowered in place.
   */
  lemma GoogleUsernameName(name: string, googleId: string)
    ensures var stripped := RemoveWhitespace(name);
            forall i :: 0 <= i < |stripped| ==> GoogleUsername(name, googleId)[i] == LowerChar(stripped[i])
  {
  }

  /**
   * Two different Google users can be given the same username: the suffix only keeps
   * four characters of the subject id, and case and spacing of the name are dropped.
   */
  lemma GoogleUsernameCollides()
    ensures GoogleUsername("Al", "101234") == GoogleUsername("a l", "201234") == "al1234"
  {
    assert RemoveWhitespace("l") == "l";
    assert RemoveWhitespace(" l") == "l";
    assert RemoveWhitespace("a l") == "al";
    assert RemoveWhitespace("Al") == "Al";
    assert LowerChar('A') == 'a' && LowerChar('a') == 'a' && LowerChar('l') == 'l';
    assert ToLower("Al") == "al";
    assert ToLower("al") == "al";
    assert Slice("101234", -4) == "1234";
    assert Slice("201234", -4) == "1234";
    assert "al" + "1234" == "al1234";
  }

  predicate IsDigits(s: string) {
    forall i :: 0 <= i < |s| ==> '0' <= s[i] <= '9'
  }

  function DigitChar(d: nat): (c: char)
    requires d < 10
    ensures '0' <= c <= '9' && c as int - '0' as int == d
  {
    ('0' as int + d) as char
  }

  /** `n.toString()` for a natural number: its decimal digits, without leading zeros. */
  function Decimal(n: nat): (r: string)
    ensures |r| >= 1 && IsDigits(r)
    ensures n == 0 <==> r == "0"
    ensures n > 0 ==> r[0] != '0'
    decreases n
  {
    if n < 10 then [DigitChar(n)] else Decimal(n / 10) + [DigitChar(n % 10)]
  }

  /** The number a string of decimal digits denotes. */
  function DigitsValue(s: string): nat
    requires IsDigits(s)
  {
    if s == [] then 0 else 10 * DigitsValue(s[..|s| - 1]) + (s[|s| - 1] as int - '0' as int)
  }

  /** Reading back the digits of `n.toString()` gives `n`. */
  lemma {:induction false} DecimalRoundTrip(n: nat)
    ensures DigitsValue(Decimal(n)) == n
    decreases n
  {
    if n >= 10 {
      DecimalRoundTrip(n / 10);
      var r := Decimal(n);
      assert r[..|r| - 1] == Decimal(n / 10);
    }
  }

  /** Different timestamps give different record ids. */
  lemma DecimalInjective(m: nat, n: nat)
    requires Decimal(m) == Decimal(n)
    ensures m == n
  {
    DecimalRoundTrip(m);
    DecimalRoundTrip(n);
  }

  /** `s.startsWith(prefix)`. */
  predicate StartsWith(s: string, prefix: string) {
    |prefix| <= |s| && s[..|prefix|] == prefix
  }

  const BearerPrefix: string := "Bearer "

  /**
   * The token carried by an `Authorization` header: present only when the header is there and
   * starts with "Bearer ", and then the header with its first seven characters removed.
   */
  function BearerToken(header: Option<string>): (token: Option<string>)
    ensures token.Some? ==> header == Some(BearerPrefix + token.value)
    ensures token.None? ==> header.None? || !StartsWith(header.value, BearerPrefix)
  {
    if header.Some? && StartsWith(header.value, BearerPrefix) then
      var h := header.value;
      assert h == h[..|BearerPrefix|] + h[|BearerPrefix|..];
      Some(h[|BearerPrefix|..])
    else None
  }

  /** Any token sent as "Bearer <token>" is read back exactly. */
  lemma BearerTokenRoundTrip(token: string)
    ensures BearerToken(Some(BearerPrefix + token)) == Some(token)
  {
    assert (BearerPrefix + token)[..|BearerPrefix|] == BearerPrefix;
    assert (BearerPrefix + token)[|BearerPrefix|..] == token;
  }
}
