/** JavaScript strings as sequences of UTF-16 code units, and the few
    String.prototype operations the bot relies on: `trim` and an ASCII
    `toLowerCase`. `.length`, indexing and `slice` in JavaScript all count
    code units, so a string here is a sequence of code units. */
module JsText {

  /** One UTF-16 code unit. */
  type CodeUnit = u: int | 0 <= u < 0x1_0000

  /** A JavaScript string value. */
  type JsString = seq<CodeUnit>

  const Newline: CodeUnit := 0x0A

  /** The code units `String.prototype.trim` removes: WhiteSpace (TAB, VT,
      FF, SPACE, NBSP, ZWNBSP and category Zs) and LineTerminator (LF, CR,
      LS, PS), as ECMAScript defines them. */
  predicate IsWhiteSpace(u: CodeUnit) {
    if u < 0x80 then 0x09 <= u <= 0x0D || u == 0x20
    else Occurs(u, NonAsciiWhiteSpace)
  }

  /** The white-space code units above U+007F. */
  const NonAsciiWhiteSpace: seq<CodeUnit> := [
    0xA0, 0x1680,
    0x2000, 0x2001, 0x2002, 0x2003, 0x2004, 0x2005, 0x2006, 0x2007, 0x2008, 0x2009, 0x200A,
    0x2028, 0x2029, 0x202F, 0x205F, 0x3000, 0xFEFF
  ]

  predicate Occurs(u: CodeUnit, units: seq<CodeUnit>) {
    units != [] && (units[0] == u || Occurs(u, units[1..]))
  }

  /** No ASCII letter is white space, so ASCII case mapping keeps a code
      unit's white-space status. */
  lemma LowerUnitKeepsWhiteSpace(u: CodeUnit)
    ensures IsWhiteSpace(LowerUnit(u)) <==> IsWhiteSpace(u)
  {
  }

  predicate AllWhiteSpace(s: JsString) {
    forall i :: 0 <= i < |s| ==> IsWhiteSpace(s[i])
  }

  /** A string that `trim` leaves as it is. */
  predicate IsTrimmed(s: JsString) {
    s == [] || (!IsWhiteSpace(s[0]) && !IsWhiteSpace(s[|s| - 1]))
  }

  /** The length of the longest all-white-space prefix of `s`. */
  function LeadingWhiteSpace(s: JsString): (n: nat)
    ensures n <= |s| && AllWhiteSpace(s[..n])
    ensures n < |s| ==> !IsWhiteSpace(s[n])
  {
    if s == [] || !IsWhiteSpace(s[0]) then 0
    else
      var m := LeadingWhiteSpace(s[1..]);
      assert s[..1 + m] == [s[0]] + s[1..][..m];
      1 + m
  }

  /** The length of `s` without its longest all-white-space suffix. */
  function ContentEnd(s: JsString): (n: nat)
    ensures n <= |s| && AllWhiteSpace(s[n..])
    ensures n > 0 ==> !IsWhiteSpace(s[n - 1])
  {
    if s == [] || !IsWhiteSpace(s[|s| - 1]) then |s|
    else
      var m := ContentEnd(s[..|s| - 1]);
      assert s[m..] == s[..|s| - 1][m..] + [s[|s| - 1]];
      m
  }

  /** `String.prototype.trim`: drop the longest white-space prefix and the
      longest white-space suffix. */
  function Trim(s: JsString): (r: JsString)
    ensures |r| <= |s| && IsTrimmed(r)
    ensures r == [] <==> AllWhiteSpace(s)
    ensures LeadingWhiteSpace(s) + |r| <= |s|
    ensures r == s[LeadingWhiteSpace(s)..LeadingWhiteSpace(s) + |r|]
    ensures AllWhiteSpace(s[LeadingWhiteSpace(s) + |r|..])
  {
    var a := LeadingWhiteSpace(s);
    var rest := s[a..];
    var b := ContentEnd(rest);
    assert rest[b..] == s[a + b..];
    if a == |s| then assert s[..a] == s; []
    else
      assert !IsWhiteSpace(rest[0]) && b > 0;
      assert AllWhiteSpace(s) ==> false by { assert !IsWhiteSpace(s[a]); }
      rest[..b]
  }

  /** A string with no white space at either end is left as it is by the
      trim. */
  lemma TrimmedIsFixpoint(s: JsString)
    requires IsTrimmed(s)
    ensures Trim(s) == s
  {
  }

  /** `trim` is idempotent. */
  lemma TrimIdempotent(s: JsString)
    ensures Trim(Trim(s)) == Trim(s)
  {
  }

  lemma AllWhiteSpaceAppend(x: JsString, y: JsString)
    requires AllWhiteSpace(x) && AllWhiteSpace(y)
    ensures AllWhiteSpace(x + y)
  {
  }

  /** White space put around a string does not survive `trim`. */
  lemma TrimPadded(pre: JsString, s: JsString, post: JsString)
    requires AllWhiteSpace(pre) && AllWhiteSpace(post)
    ensures Trim(pre + s + post) == Trim(s)
  {
    var t := pre + s + post;
    var r := Trim(s);
    if r == [] {
      AllWhiteSpaceAppend(pre, s);
      AllWhiteSpaceAppend(pre + s, post);
    } else {
      var a := LeadingWhiteSpace(s);
      var b := a + |r|;
      assert s[b - 1] == r[|r| - 1];
      PaddedAround(pre, s, post, a, b);
      LeadingWhiteSpaceOf(t, |pre| + a);
      TrimExtent(t, |pre| + a, |pre| + b);
    }
  }

  /** Padding shifts the positions of `s` by `|pre|` and keeps the white
      space on both sides of `s[a..b]`. */
  lemma PaddedAround(pre: JsString, s: JsString, post: JsString, a: nat, b: nat)
    requires AllWhiteSpace(pre) && AllWhiteSpace(post)
    requires a < b <= |s| && AllWhiteSpace(s[..a]) && AllWhiteSpace(s[b..])
    ensures var t := pre + s + post;
            && AllWhiteSpace(t[..|pre| + a]) && t[|pre| + a] == s[a]
            && AllWhiteSpace(t[|pre| + b..]) && t[|pre| + b - 1] == s[b - 1]
            && t[|pre| + a..|pre| + b] == s[a..b]
  {
  }

  /** When `s[..n]` is white space and `s[n]` is not, `n` is the leading
      white-space count. */
  lemma LeadingWhiteSpaceOf(s: JsString, n: nat)
    requires n < |s| && AllWhiteSpace(s[..n]) && !IsWhiteSpace(s[n])
    ensures LeadingWhiteSpace(s) == n
  {
  }

  /** If `s[i..j]` starts and ends with non-white space and everything after
      `j` is white space, with `i` the leading count, then `trim` yields it. */
  lemma TrimExtent(s: JsString, i: nat, j: nat)
    requires i < j <= |s| && LeadingWhiteSpace(s) == i
    requires !IsWhiteSpace(s[j - 1]) && AllWhiteSpace(s[j..])
    ensures Trim(s) == s[i..j]
  {
    var r := Trim(s);
    assert r != [] by { assert !IsWhiteSpace(s[i]); }
    assert i + |r| == j;
  }

  lemma AllWhiteSpaceConcat(a: JsString, b: JsString)
    ensures AllWhiteSpace(a + b) <==> AllWhiteSpace(a) && AllWhiteSpace(b)
  {
    if AllWhiteSpace(a + b) {
      assert forall i :: 0 <= i < |a| ==> a[i] == (a + b)[i];
      assert forall i :: 0 <= i < |b| ==> b[i] == (a + b)[|a| + i];
    }
    if AllWhiteSpace(a) && AllWhiteSpace(b) {
      AllWhiteSpaceAppend(a, b);
    }
  }

  /** A new line appended to a string is trimmed away again. */
  lemma TrimLine(s: JsString)
    ensures Trim(s + [Newline]) == Trim(s)
  {
    TrimPadded([], s, [Newline]);
    assert [] + s + [Newline] == s + [Newline];
  }

  /** A capital letter A-Z. */
  predicate IsAsciiUpper(u: CodeUnit) {
    0x41 <= u <= 0x5A
  }

  /** ASCII `toLowerCase` of one code unit. */
  function LowerUnit(u: CodeUnit): CodeUnit {
    if IsAsciiUpper(u) then u + 0x20 else u
  }

  /** `toLowerCase`, restricted to the ASCII letters A-Z: the result has the
      same length, no capital letter A-Z is left, and only capital letters
      A-Z are changed. */
  function LowerAscii(s: JsString): (r: JsString)
    ensures |r| == |s|
    ensures forall i :: 0 <= i < |r| ==> !IsAsciiUpper(r[i])
    ensures forall i :: 0 <= i < |s| && r[i] != s[i] ==> IsAsciiUpper(s[i])
  {
    seq(|s|, i requires 0 <= i < |s| => LowerUnit(s[i]))
  }

  /** Lower-casing twice is lower-casing once. */
  lemma LowerAsciiIdempotent(s: JsString)
    ensures LowerAscii(LowerAscii(s)) == LowerAscii(s)
  {
  }

  lemma LowerSlice(s: JsString, i: nat, j: nat)
    requires i <= j <= |s|
    ensures LowerAscii(s)[i..j] == LowerAscii(s[i..j])
  {
  }

  lemma AllWhiteSpaceLower(s: JsString)
    ensures AllWhiteSpace(LowerAscii(s)) <==> AllWhiteSpace(s)
  {
    forall i | 0 <= i < |s| ensures IsWhiteSpace(LowerAscii(s)[i]) <==> IsWhiteSpace(s[i]) {
      LowerUnitKeepsWhiteSpace(s[i]);
    }
  }

  /** Lower-casing and trimming commute: case mapping never turns white
      space into non-white space or back. */
  lemma LowerTrimCommute(s: JsString)
    ensures Trim(LowerAscii(s)) == LowerAscii(Trim(s))
  {
    var l := LowerAscii(s);
    var t := Trim(s);
    if t == [] {
      AllWhiteSpaceLower(s);
    } else {
      var a := LeadingWhiteSpace(s);
      var j := a + |t|;
      LowerSlice(s, 0, a);
      assert s[0..a] == s[..a] && l[0..a] == l[..a];
      AllWhiteSpaceLower(s[..a]);
      LowerSlice(s, j, |s|);
      assert s[j..|s|] == s[j..] && l[j..|s|] == l[j..];
      AllWhiteSpaceLower(s[j..]);
      LowerUnitKeepsWhiteSpace(s[a]);
      assert s[j - 1] == t[|t| - 1];
      LowerUnitKeepsWhiteSpace(s[j - 1]);
      LeadingWhiteSpaceOf(l, a);
      TrimExtent(l, a, j);
      LowerSlice(s, a, j);
    }
  }

  /** The string with every white-space code unit removed: what a reader
      sees of a text once layout is ignored. */
  function RemoveWhiteSpace(s: JsString): (r: JsString)
    ensures |r| <= |s|
  {
    if s == [] then []
    else if IsWhiteSpace(s[0]) then RemoveWhiteSpace(s[1..])
    else [s[0]] + RemoveWhiteSpace(s[1..])
  }

  lemma {:induction false} RemoveWhiteSpaceAppend(a: JsString, b: JsString)
    ensures RemoveWhiteSpace(a + b) == RemoveWhiteSpace(a) + RemoveWhiteSpace(b)
  {
    if a == [] {
      assert a + b == b;
    } else {
      assert (a + b)[0] == a[0];
      assert (a + b)[1..] == a[1..] + b;
      RemoveWhiteSpaceAppend(a[1..], b);
    }
  }

  lemma {:induction false} RemoveWhiteSpaceOfBlank(s: JsString)
    requires AllWhiteSpace(s)
    ensures RemoveWhiteSpace(s) == []
  {
    if s != [] {
      assert AllWhiteSpace(s[1..]) by {
        assert forall i :: 0 <= i < |s| - 1 ==> s[1..][i] == s[i + 1];
      }
      RemoveWhiteSpaceOfBlank(s[1..]);
    }
  }

  /** `trim` only ever removes white space. */
  lemma TrimKeepsContent(s: JsString)
    ensures RemoveWhiteSpace(Trim(s)) == RemoveWhiteSpace(s)
  {
    var a := LeadingWhiteSpace(s);
    var r := Trim(s);
    var j := a + |r|;
    assert s == s[..a] + s[a..j] + s[j..];
    RemoveWhiteSpaceAppend(s[..a] + s[a..j], s[j..]);
    RemoveWhiteSpaceAppend(s[..a], s[a..j]);
    RemoveWhiteSpaceOfBlank(s[..a]);
    RemoveWhiteSpaceOfBlank(s[j..]);
  }
}
