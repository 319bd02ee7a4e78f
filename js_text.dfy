/**
 * The JavaScript string operations the screens rely on, over `string` (= `seq<char>`):
 * `trim`, `toLowerCase` (ASCII letters only), `includes`, the relational `<` on strings
 * (ECMA-262 IsLessThan) and the string-to-number conversion behind the global `isNaN`
 * (ECMA-262 StringToNumber and its StringNumericLiteral grammar).
 */
module JsText {

  // ---------------------------------------------------------------- whitespace and trim

  /** The WhiteSpace and LineTerminator code points of ECMA-262, which `trim` and `Number` strip. */
  predicate IsJsSpace(c: char) {
    || c == '\t' || c == '\n' || c == '\U{B}' || c == '\U{C}' || c == '\r' || c == ' '
    || c == '\U{A0}' || c == '\U{1680}'
    || c == '\U{2000}' || c == '\U{2001}' || c == '\U{2002}' || c == '\U{2003}'
    || c == '\U{2004}' || c == '\U{2005}' || c == '\U{2006}' || c == '\U{2007}'
    || c == '\U{2008}' || c == '\U{2009}' || c == '\U{200A}'
    || c == '\U{2028}' || c == '\U{2029}' || c == '\U{202F}' || c == '\U{205F}'
    || c == '\U{3000}' || c == '\U{FEFF}'
  }

  predicate AllSpace(s: string) {
    forall i :: 0 <= i < |s| ==> IsJsSpace(s[i])
  }

  /** How many characters of white space `s` starts with. */
  function LeadingSpace(s: string): (n: nat)
    ensures n <= |s| && AllSpace(s[..n])
    ensures n == |s| || !IsJsSpace(s[n])
  {
    if |s| > 0 && IsJsSpace(s[0]) then 1 + LeadingSpace(s[1..]) else 0
  }

  /** How many characters of white space `s` ends with. */
  function TrailingSpace(s: string): (n: nat)
    ensures n <= |s| && AllSpace(s[|s| - n..])
    ensures n == |s| || !IsJsSpace(s[|s| - n - 1])
  {
    if |s| > 0 && IsJsSpace(s[|s| - 1]) then 1 + TrailingSpace(s[..|s| - 1]) else 0
  }

  function TrimStart(s: string): (r: string)
    ensures |r| <= |s| && r == s[|s| - |r|..]
    ensures r == [] || !IsJsSpace(r[0])
    ensures AllSpace(s[..|s| - |r|])
  {
    s[LeadingSpace(s)..]
  }

  function TrimEnd(s: string): (r: string)
    ensures |r| <= |s| && r == s[..|r|]
    ensures r == [] || !IsJsSpace(r[|r| - 1])
    ensures AllSpace(s[|r|..])
  {
    s[..|s| - TrailingSpace(s)]
  }

  /** `String.prototype.trim`. */
  function Trim(s: string): (r: string)
    ensures |r| <= |s|
  {
    TrimEnd(TrimStart(s))
  }

  /** What `trim` returns neither starts nor ends with white space. */
  lemma TrimStripsBothEnds(s: string)
    ensures var r := Trim(s);
      r == [] || (!IsJsSpace(r[0]) && !IsJsSpace(r[|r| - 1]))
  {
    var t := TrimStart(s);
    var r := TrimEnd(t);
    assert r != [] ==> r[0] == t[0];
  }

  /** `!s.trim()`: the string is empty once trimmed. */
  predicate IsBlank(s: string) {
    Trim(s) == ""
  }

  /** A string is blank exactly when every character of it is JavaScript whitespace. */
  lemma BlankIffAllSpace(s: string)
    ensures IsBlank(s) <==> AllSpace(s)
  {
    var t := TrimStart(s);
    if AllSpace(s) {
      assert AllSpace(t);
    }
    if IsBlank(s) {
      assert AllSpace(t);
      assert t == [];
      forall i | 0 <= i < |s| ensures IsJsSpace(s[i]) {
        assert s[i] == s[..|s| - |t|][i];
      }
    }
  }

  // ---------------------------------------------------------------- toLowerCase

  function LowerChar(c: char): char {
    if 'A' <= c <= 'Z' then (c as int + 32) as char else c
  }

  /** `String.prototype.toLowerCase`, restricted to the ASCII letters. */
  function ToLower(s: string): (r: string)
    ensures |r| == |s|
    ensures forall i :: 0 <= i < |r| ==> !('A' <= r[i] <= 'Z')
    ensures forall i :: 0 <= i < |s| && 'A' <= s[i] <= 'Z' ==> r[i] == (s[i] as int + 32) as char
    ensures forall i :: 0 <= i < |s| && !('A' <= s[i] <= 'Z') ==> r[i] == s[i]
  {
    seq(|s|, i requires 0 <= i < |s| => LowerChar(s[i]))
  }

  /** Lowercasing twice is lowercasing once. */
  lemma ToLowerIdempotent(s: string)
    ensures ToLower(ToLower(s)) == ToLower(s)
  {
  }

  // ---------------------------------------------------------------- includes

  /** `needle` occurs in `hay` starting at index `i`. */
  predicate OccursAt(hay: string, needle: string, i: int) {
    0 <= i && i + |needle| <= |hay| && hay[i..i + |needle|] == needle
  }

  /** `String.prototype.includes`: scan the start positions from left to right. */
  function Includes(hay: string, needle: string): bool
    decreases |hay|
  {
    needle <= hay || (|hay| > 0 && Includes(hay[1..], needle))
  }

  /** `includes` finds exactly the positions at which the needle occurs. */
  lemma {:induction false} IncludesIffOccurs(hay: string, needle: string)
    ensures Includes(hay, needle) <==> exists i :: OccursAt(hay, needle, i)
    decreases |hay|
  {
    if needle <= hay {
      assert OccursAt(hay, needle, 0);
    } else if |hay| > 0 {
      IncludesIffOccurs(hay[1..], needle);
      if Includes(hay[1..], needle) {
        var i :| OccursAt(hay[1..], needle, i);
        assert hay[1..][i..i + |needle|] == hay[i + 1..i + 1 + |needle|];
        assert OccursAt(hay, needle, i + 1);
      }
      if i :| OccursAt(hay, needle, i) {
        OccursAtStart(hay, needle);
        assert i != 0;
        assert hay[1..][i - 1..i - 1 + |needle|] == hay[i..i + |needle|];
        assert OccursAt(hay[1..], needle, i - 1);
      }
    }
  }

  /** An occurrence at index 0 is a prefix. */
  lemma OccursAtStart(hay: string, needle: string)
    ensures OccursAt(hay, needle, 0) <==> needle <= hay
  {
    if OccursAt(hay, needle, 0) {
      assert hay[..|needle|] == needle;
    }
  }

  /** `"".includes("")` and every other string includes the empty string. */
  lemma IncludesEmpty(hay: string)
    ensures Includes(hay, "")
  {
  }

  /** A one-character `includes`, such as `email.includes("@")`, is membership. */
  lemma {:induction false} IncludesChar(hay: string, c: char)
    ensures Includes(hay, [c]) <==> c in hay
    decreases |hay|
  {
    if |hay| > 0 {
      IncludesChar(hay[1..], c);
      assert hay == [hay[0]] + hay[1..];
    }
  }

  // ---------------------------------------------------------------- relational < on strings

  /**
   * `a < b` on two strings: a proper prefix is smaller; otherwise the first differing
   * character decides.
   */
  function LessThan(a: string, b: string): bool
    decreases |a|
  {
    if |a| == 0 then |b| > 0
    else if |b| == 0 then false
    else if a[0] != b[0] then a[0] < b[0]
    else LessThan(a[1..], b[1..])
  }

  /** `a` and `b` agree before index `k` and differ at it. */
  predicate FirstDifferenceAt(a: string, b: string, k: int) {
    0 <= k < |a| && k < |b| && a[..k] == b[..k] && a[k] != b[k]
  }

  /**
   * LessThan agrees with the definition of IsLessThan in ECMA-262: `a` is a proper prefix
   * of `b`, or at the first index where they differ `a` holds the smaller character.
   */
  lemma {:induction false} LessThanIsLexicographic(a: string, b: string)
    ensures LessThan(a, b) <==> (a < b || exists k :: FirstDifferenceAt(a, b, k) && a[k] < b[k])
    decreases |a|
  {
    if |a| > 0 && |b| > 0 {
      if a[0] != b[0] {
        assert FirstDifferenceAt(a, b, 0);
        forall k | FirstDifferenceAt(a, b, k) ensures k == 0 { }
      } else {
        LessThanIsLexicographic(a[1..], b[1..]);
        if k :| FirstDifferenceAt(a[1..], b[1..], k) && a[1..][k] < b[1..][k] {
          assert a[..k + 1] == [a[0]] + a[1..][..k];
          assert b[..k + 1] == [b[0]] + b[1..][..k];
          assert FirstDifferenceAt(a, b, k + 1);
        }
        if k :| FirstDifferenceAt(a, b, k) && a[k] < b[k] {
          assert k > 0;
          assert a[1..][..k - 1] == a[..k][1..];
          assert b[1..][..k - 1] == b[..k][1..];
          assert FirstDifferenceAt(a[1..], b[1..], k - 1);
        }
        if a < b {
          assert a[1..] < b[1..];
        }
        if a[1..] < b[1..] {
          assert a == [a[0]] + a[1..];
          assert b == [b[0]] + b[1..];
        }
      }
    } else if |a| > 0 {
      forall k | FirstDifferenceAt(a, b, k) ensures false { }
    } else {
      forall k | FirstDifferenceAt(a, b, k) ensures false { }
    }
  }

  lemma {:induction false} LessThanIrreflexive(a: string)
    ensures !LessThan(a, a)
    decreases |a|
  {
    if |a| > 0 {
      LessThanIrreflexive(a[1..]);
    }
  }

  lemma {:induction false} LessThanTransitive(a: string, b: string, c: string)
    requires LessThan(a, b) && LessThan(b, c)
    ensures LessThan(a, c)
    decreases |a|
  {
    if |a| > 0 && a[0] == b[0] && b[0] == c[0] {
      LessThanTransitive(a[1..], b[1..], c[1..]);
    }
  }

  /** Exactly one of `a < b`, `a == b`, `b < a` holds. */
  lemma {:induction false} LessThanTrichotomy(a: string, b: string)
    ensures LessThan(a, b) || a == b || LessThan(b, a)
    ensures !(LessThan(a, b) && LessThan(b, a))
    ensures a == b ==> !LessThan(a, b)
    decreases |a|
  {
    if |a| > 0 && |b| > 0 {
      if a[0] == b[0] {
        LessThanTrichotomy(a[1..], b[1..]);
        if a[1..] == b[1..] {
          assert a == [a[0]] + a[1..] && b == [b[0]] + b[1..];
        }
      }
    } else if |a| == 0 && |b| == 0 {
      assert a == b;
    }
  }

  // ---------------------------------------------------------------- Number(s) and isNaN

  predicate IsDecimalDigit(c: char) { '0' <= c <= '9' }
  predicate IsHexDigit(c: char) { IsDecimalDigit(c) || 'a' <= c <= 'f' || 'A' <= c <= 'F' }
  predicate IsOctalDigit(c: char) { '0' <= c <= '7' }
  predicate IsBinaryDigit(c: char) { c == '0' || c == '1' }

  /** DecimalDigits: one or more decimal digits. */
  predicate DecimalDigits(s: string) {
    |s| > 0 && forall i :: 0 <= i < |s| ==> IsDecimalDigit(s[i])
  }

  /** NonDecimalIntegerLiteral without separators: `0x…`, `0o…` or `0b…`. */
  predicate NonDecimalIntegerLiteral(s: string) {
    && |s| >= 3 && s[0] == '0'
    && (|| ((s[1] == 'x' || s[1] == 'X') && forall i :: 2 <= i < |s| ==> IsHexDigit(s[i]))
        || ((s[1] == 'o' || s[1] == 'O') && forall i :: 2 <= i < |s| ==> IsOctalDigit(s[i]))
        || ((s[1] == 'b' || s[1] == 'B') && forall i :: 2 <= i < |s| ==> IsBinaryDigit(s[i])))
  }

  /** The index of the first occurrence of `c` in `s`, or `|s|` if there is none. */
  function IndexOf(s: string, c: char): (k: nat)
    ensures k <= |s| && c !in s[..k] && (k < |s| ==> s[k] == c)
  {
    if |s| == 0 then 0
    else if s[0] == c then 0
    else 1 + IndexOf(s[1..], c)
  }

  /** SignedInteger: DecimalDigits with an optional sign. */
  predicate SignedInteger(s: string) {
    DecimalDigits(s) || (|s| > 0 && (s[0] == '+' || s[0] == '-') && DecimalDigits(s[1..]))
  }

  /**
   * The digits and point of a StrUnsignedDecimalLiteral: `D`, `D.`, `D.D` or `.D`.
   */
  predicate Mantissa(m: string) {
    var q := IndexOf(m, '.');
    if q == |m| then DecimalDigits(m)
    else
      var whole, fraction := m[..q], m[q + 1..];
      (DecimalDigits(whole) && (fraction == [] || DecimalDigits(fraction)))
      || (whole == [] && DecimalDigits(fraction))
  }

  /** StrUnsignedDecimalLiteral: `Infinity`, or a mantissa with an optional exponent part. */
  predicate StrUnsignedDecimalLiteral(s: string) {
    if s == "Infinity" then true
    else
      var e := IndexOf(s, 'e');
      var capitalE := IndexOf(s, 'E');
      var p := if e < capitalE then e else capitalE;
      Mantissa(s[..p]) && (p == |s| || SignedInteger(s[p + 1..]))
  }

  /** StrDecimalLiteral: an unsigned decimal literal with an optional sign. */
  predicate StrDecimalLiteral(s: string) {
    StrUnsignedDecimalLiteral(s)
    || (|s| > 0 && (s[0] == '+' || s[0] == '-') && StrUnsignedDecimalLiteral(s[1..]))
  }

  /**
   * `!isNaN(s)` for a string `s`: `Number(s)` strips surrounding whitespace, reads the empty
   * rest as 0, and otherwise yields NaN unless the rest is a StrNumericLiteral.
   */
  predicate ParsesAsNumber(s: string) {
    var t := Trim(s);
    t == [] || StrDecimalLiteral(t) || NonDecimalIntegerLiteral(t)
  }

  /** A non-empty run of decimal digits always converts to a number. */
  lemma DigitsParseAsNumber(s: string)
    requires DecimalDigits(s)
    ensures ParsesAsNumber(s)
  {
    DigitsTrim(s);
    TrimmedParse(s);
    DigitsAreDecimalLiteral(s);
  }

  /** A run of digits has nothing to trim. */
  lemma DigitsTrim(s: string)
    requires DecimalDigits(s)
    ensures Trim(s) == s
  {
    assert IsDecimalDigit(s[0]) && IsDecimalDigit(s[|s| - 1]);
    TrimEnds(s);
  }

  /** A string that starts and ends with something other than white space is its own trim. */
  lemma TrimEnds(s: string)
    requires |s| > 0 && !IsJsSpace(s[0]) && !IsJsSpace(s[|s| - 1])
    ensures Trim(s) == s
  {
    assert TrimStart(s) == s;
    assert TrimEnd(s) == s;
  }

  /** For a string with nothing to trim, the conversion reads the string itself. */
  lemma TrimmedParse(s: string)
    requires Trim(s) == s
    ensures ParsesAsNumber(s) <==> s == [] || StrDecimalLiteral(s) || NonDecimalIntegerLiteral(s)
  {
  }

  /** A run of digits is a StrDecimalLiteral. */
  lemma DigitsAreDecimalLiteral(d: string)
    requires DecimalDigits(d)
    ensures StrUnsignedDecimalLiteral(d)
  {
    IndexOfAbsent(d, '.');
    IndexOfAbsent(d, 'e');
    IndexOfAbsent(d, 'E');
    assert d[..|d|] == d;
  }

  lemma IndexOfAbsent(s: string, c: char)
    requires c !in s
    ensures IndexOf(s, c) == |s|
  {
  }
}
