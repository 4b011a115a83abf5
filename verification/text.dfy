/** The string operations of Foundation and the Swift standard library that
    the tool relies on, over `string` (a sequence of Unicode scalar values):
    prefix and substring tests, `components(separatedBy:)`,
    `joined(separator:)`, `replacingOccurrences(of:with:)`,
    `trimmingCharacters(in: .whitespaces)`, `String <`, `Int(_: String)` and
    decimal interpolation of an `Int`. */
module Text {
  import opened Wrappers

  predicate HasPrefix(s: string, prefix: string) {
    |prefix| <= |s| && s[..|prefix|] == prefix
  }

  /** `pat` occurs in `s` starting at index `i`. */
  predicate OccursAt(s: string, pat: string, i: nat) {
    i + |pat| <= |s| && s[i..i + |pat|] == pat
  }

  /** Text placed between two others occurs where it was placed. */
  lemma OccursBetween(front: string, pat: string, back: string)
    ensures OccursAt(front + pat + back, pat, |front|)
  {
    assert (front + pat + back)[|front|..|front| + |pat|] == pat;
  }

  /** The first occurrence of `pat` in `s` at or after index `i`. */
  function IndexFrom(s: string, pat: string, i: nat): (r: Option<nat>)
    requires |pat| > 0
    ensures r.Some? ==> i <= r.value && OccursAt(s, pat, r.value)
    ensures r.Some? ==> forall j :: i <= j < r.value ==> !OccursAt(s, pat, j)
    ensures r.None? ==> forall j :: i <= j ==> !OccursAt(s, pat, j)
    decreases |s| - i
  {
    if i + |pat| > |s| then None
    else if OccursAt(s, pat, i) then Some(i)
    else IndexFrom(s, pat, i + 1)
  }

  /** The first occurrence of `pat` in `s`. */
  function IndexOf(s: string, pat: string): (r: Option<nat>)
    requires |pat| > 0
    ensures r.Some? ==> OccursAt(s, pat, r.value)
    ensures r.Some? ==> forall j :: 0 <= j < r.value ==> !OccursAt(s, pat, j)
    ensures r.None? ==> forall j: nat :: !OccursAt(s, pat, j)
  {
    IndexFrom(s, pat, 0)
  }

  /** Swift's `s.contains(pat)` for a non-empty `pat`. */
  predicate Contains(s: string, pat: string)
    requires |pat| > 0
  {
    IndexOf(s, pat).Some?
  }

  lemma OccursAtContains(s: string, pat: string, i: nat)
    requires |pat| > 0 && OccursAt(s, pat, i)
    ensures Contains(s, pat)
  {
  }

  /** Foundation's `components(separatedBy:)`: the pieces between the
      occurrences of `sep`, found left to right without overlap. */
  function Split(s: string, sep: string): (parts: seq<string>)
    requires |sep| > 0
    ensures |parts| >= 1
    decreases |s|
  {
    match IndexOf(s, sep)
    case None => [s]
    case Some(i) => [s[..i]] + Split(s[i + |sep|..], sep)
  }

  /** Swift's `joined(separator:)`. */
  function Join(parts: seq<string>, sep: string): string
  {
    if |parts| == 0 then ""
    else if |parts| == 1 then parts[0]
    else parts[0] + sep + Join(parts[1..], sep)
  }

  function Last<T>(xs: seq<T>): T
    requires |xs| > 0
  {
    xs[|xs| - 1]
  }

  /** Foundation's `replacingOccurrences(of:with:)`. */
  function ReplaceAll(s: string, pat: string, replacement: string): string
    requires |pat| > 0
  {
    Join(Split(s, pat), replacement)
  }

  /** The final `/`-separated component of a path. */
  function LastPathComponent(path: string): string
  {
    Last(Split(path, "/"))
  }

  lemma JoinCons(head: string, tail: seq<string>, sep: string)
    requires |tail| > 0
    ensures Join([head] + tail, sep) == head + sep + Join(tail, sep)
  {
    assert ([head] + tail)[1..] == tail;
  }

  lemma {:induction false} JoinSnoc(init: seq<string>, last: string, sep: string)
    requires |init| > 0
    ensures Join(init + [last], sep) == Join(init, sep) + sep + last
    decreases |init|
  {
    if |init| == 1 {
      assert init + [last] == [init[0], last];
      assert [init[0], last][1..] == [last];
    } else {
      assert (init + [last])[1..] == init[1..] + [last];
      JoinSnoc(init[1..], last, sep);
    }
  }

  /** Joining the pieces back with the separator gives the original text. */
  lemma {:induction false} JoinSplit(s: string, sep: string)
    requires |sep| > 0
    ensures Join(Split(s, sep), sep) == s
    decreases |s|
  {
    var found := IndexOf(s, sep);
    if found.Some? {
      var i := found.value;
      var rest := s[i + |sep|..];
      var tail := Split(rest, sep);
      assert Split(s, sep) == [s[..i]] + tail;
      JoinSplit(rest, sep);
      JoinCons(s[..i], tail, sep);
      assert s == s[..i] + s[i..i + |sep|] + rest;
    }
  }

  /** No piece of a split contains the separator. */
  lemma {:induction false} SplitPartsAvoidSeparator(s: string, sep: string)
    requires |sep| > 0
    ensures forall k :: 0 <= k < |Split(s, sep)| ==> !Contains(Split(s, sep)[k], sep)
    decreases |s|
  {
    match IndexOf(s, sep)
    case None =>
    case Some(i) =>
      var rest := s[i + |sep|..];
      SplitPartsAvoidSeparator(rest, sep);
      var head := s[..i];
      if Contains(head, sep) {
        var j := IndexOf(head, sep).value;
        assert head[j..j + |sep|] == s[j..j + |sep|];
        assert OccursAt(s, sep, j);
        assert false;
      }
      assert Split(s, sep) == [head] + Split(rest, sep);
  }

  /** Text without the character is one piece. */
  lemma CharSplitAlone(head: string, c: char)
    requires c !in head
    ensures Split(head, [c]) == [head]
  {
    ContainsChar(head, c);
  }

  /** Splitting stops first at the character that follows a piece without it. */
  lemma CharSplitStep(head: string, tail: string, c: char)
    requires c !in head
    ensures Split(head + [c] + tail, [c]) == [head] + Split(tail, [c])
  {
    var s := head + [c] + tail;
    forall j | 0 <= j < |head|
      ensures !OccursAt(s, [c], j)
    {
      assert s[j..j + 1][0] == s[j] == head[j];
    }
    assert OccursAt(s, [c], |head|);
    assert IndexOf(s, [c]) == Some(|head|);
    assert s[..|head|] == head;
    assert s[|head| + 1..] == tail;
  }

  /** Splitting on one character undoes joining on it, when no piece holds
      that character. */
  lemma {:induction false} SplitJoin(parts: seq<string>, c: char)
    requires |parts| > 0
    requires forall k :: 0 <= k < |parts| ==> c !in parts[k]
    ensures Split(Join(parts, [c]), [c]) == parts
    decreases |parts|
  {
    if |parts| == 1 {
      CharSplitAlone(parts[0], c);
    } else {
      assert parts == [parts[0]] + parts[1..];
      JoinCons(parts[0], parts[1..], [c]);
      CharSplitStep(parts[0], Join(parts[1..], [c]), c);
      SplitJoin(parts[1..], c);
    }
  }

  /** The first piece of a split starts the text, and unless it is all of
      the text the separator follows it. */
  lemma SplitFirstPiece(s: string, sep: string)
    requires |sep| > 0
    ensures HasPrefix(s, Split(s, sep)[0])
    ensures |Split(s, sep)[0]| < |s| ==> OccursAt(s, sep, |Split(s, sep)[0]|)
  {
  }

  /** A one-character text occurs exactly when that character does. */
  lemma ContainsChar(s: string, c: char)
    ensures Contains(s, [c]) <==> c in s
  {
    if c in s {
      var i :| 0 <= i < |s| && s[i] == c;
      assert s[i..i + 1] == [c];
      OccursAtContains(s, [c], i);
    }
    if Contains(s, [c]) {
      var i := IndexOf(s, [c]).value;
      assert s[i] == s[i..i + 1][0];
    }
  }

  /** A split has more than one piece exactly when the separator occurs. */
  lemma SplitCount(s: string, sep: string)
    requires |sep| > 0
    ensures |Split(s, sep)| > 1 <==> Contains(s, sep)
  {
  }

  /** Membership in `CharacterSet.whitespaces`: the tab and the Unicode space
      separators (general category Zs). */
  predicate IsWhitespace(c: char) {
    c == '\t' || c == ' ' || c == '\U{00A0}' || c == '\U{1680}' ||
    ('\U{2000}' <= c <= '\U{200A}') || c == '\U{202F}' || c == '\U{205F}' || c == '\U{3000}'
  }

  function LeadingWhitespace(s: string): (n: nat)
    ensures n <= |s|
    ensures forall k :: 0 <= k < n ==> IsWhitespace(s[k])
    ensures n < |s| ==> !IsWhitespace(s[n])
  {
    if s == [] || !IsWhitespace(s[0]) then 0 else 1 + LeadingWhitespace(s[1..])
  }

  function TrailingWhitespace(s: string): (n: nat)
    ensures n <= |s|
    ensures forall k :: |s| - n <= k < |s| ==> IsWhitespace(s[k])
    ensures n < |s| ==> !IsWhitespace(s[|s| - n - 1])
  {
    if s == [] || !IsWhitespace(s[|s| - 1]) then 0 else 1 + TrailingWhitespace(s[..|s| - 1])
  }

  /** `trimmingCharacters(in: .whitespaces)`: the longest middle slice of `s`
      whose ends are not whitespace, with only whitespace cut off. */
  function Trim(s: string): (t: string)
    ensures t == [] || (!IsWhitespace(t[0]) && !IsWhitespace(t[|t| - 1]))
    ensures exists a, b :: 0 <= a <= b <= |s| && t == s[a..b] &&
              (forall k :: 0 <= k < a ==> IsWhitespace(s[k])) &&
              (forall k :: b <= k < |s| ==> IsWhitespace(s[k]))
  {
    var a := LeadingWhitespace(s);
    var rest := s[a..];
    var b := a + |rest| - TrailingWhitespace(rest);
    assert rest[..|rest| - TrailingWhitespace(rest)] == s[a..b];
    s[a..b]
  }

  /** Lexicographic order on Unicode scalar values. */
  predicate LexLess(a: string, b: string)
    decreases |a|
  {
    |b| > 0 && (|a| == 0 || a[0] < b[0] || (a[0] == b[0] && LexLess(a[1..], b[1..])))
  }

  lemma {:induction false} LexLessIrreflexive(a: string)
    ensures !LexLess(a, a)
    decreases |a|
  {
    if |a| > 0 {
      LexLessIrreflexive(a[1..]);
    }
  }

  lemma {:induction false} LexLessTransitive(a: string, b: string, c: string)
    requires LexLess(a, b) && LexLess(b, c)
    ensures LexLess(a, c)
    decreases |a|
  {
    if |a| > 0 && a[0] == b[0] == c[0] {
      LexLessTransitive(a[1..], b[1..], c[1..]);
    }
  }

  lemma {:induction false} LexLessTotal(a: string, b: string)
    ensures a == b || LexLess(a, b) || LexLess(b, a)
    decreases |a|
  {
    if |a| > 0 && |b| > 0 && a[0] == b[0] {
      LexLessTotal(a[1..], b[1..]);
      if a[1..] == b[1..] {
        assert a == [a[0]] + a[1..] && b == [b[0]] + b[1..];
      }
    }
  }

  lemma LexLessAsymmetric(a: string, b: string)
    requires LexLess(a, b)
    ensures !LexLess(b, a)
  {
    if LexLess(b, a) {
      LexLessTransitive(a, b, a);
      LexLessIrreflexive(a);
    }
  }

  /** Not-less is transitive too, so sorting by `LexLess` is well defined. */
  lemma LexLessNegativelyTransitive(a: string, b: string, c: string)
    requires !LexLess(a, b) && !LexLess(b, c)
    ensures !LexLess(a, c)
  {
    if LexLess(a, c) {
      LexLessTotal(a, b);
      if a != b {
        LexLessTransitive(b, a, c);
      }
    }
  }

  predicate IsDigit(c: char) {
    '0' <= c <= '9'
  }

  predicate AllDigits(s: string) {
    forall k :: 0 <= k < |s| ==> IsDigit(s[k])
  }

  function DigitValue(c: char): nat
    requires IsDigit(c)
  {
    c as int - '0' as int
  }

  function DigitChar(d: nat): (c: char)
    requires d < 10
    ensures IsDigit(c) && DigitValue(c) == d
  {
    ('0' as int + d) as char
  }

  /** The value of a run of decimal digits, most significant first. */
  function DigitsValue(s: string): nat
    requires AllDigits(s)
  {
    if s == [] then 0 else 10 * DigitsValue(s[..|s| - 1]) + DigitValue(s[|s| - 1])
  }

  /** The range of Swift's 64-bit `Int`. */
  const IntMin: int := -0x8000_0000_0000_0000
  const IntMax: int := 0x7FFF_FFFF_FFFF_FFFF

  /** Swift's failable `Int(_: String)`: an optional `+` or `-`, then one or
      more ASCII digits and nothing else, with a value that fits in `Int`. */
  function ParseInt(s: string): (r: Option<int>)
    ensures r.Some? ==> IntMin <= r.value <= IntMax
    ensures r.Some? ==> |s| > 0 && forall k :: 0 < k < |s| ==> IsDigit(s[k])
  {
    var signed := |s| > 0 && (s[0] == '+' || s[0] == '-');
    var digits := if signed then s[1..] else s;
    if |digits| == 0 || !AllDigits(digits) then None
    else
      var magnitude := DigitsValue(digits);
      var v: int := if signed && s[0] == '-' then -(magnitude as int) else magnitude;
      if IntMin <= v <= IntMax then Some(v) else None
  }

  /** What `Int(_:)` accepts starts with a sign or a digit, and is not a
      sign alone. */
  lemma ParseIntAccepts(s: string)
    requires ParseInt(s).Some?
    ensures s[0] == '+' || s[0] == '-' || IsDigit(s[0])
    ensures s != "+" && s != "-"
  {
  }

  /** An unsigned run of digits reads as its decimal value, when that fits;
      a `+` changes nothing and a `-` negates, down to `Int.min`. */
  lemma ParseIntValue(digits: string)
    requires |digits| > 0 && AllDigits(digits)
    ensures ParseInt(digits) == if DigitsValue(digits) <= IntMax then Some(DigitsValue(digits)) else None
    ensures ParseInt(['+'] + digits) == ParseInt(digits)
    ensures ParseInt(['-'] + digits) ==
      if DigitsValue(digits) <= -IntMin then Some(-(DigitsValue(digits) as int)) else None
  {
    ParseIntUnsigned(digits);
    ParseIntSigned('+', digits);
    ParseIntSigned('-', digits);
  }

  lemma ParseIntUnsigned(digits: string)
    requires |digits| > 0 && AllDigits(digits)
    ensures ParseInt(digits) == if DigitsValue(digits) <= IntMax then Some(DigitsValue(digits)) else None
  {
    assert IsDigit(digits[0]);
  }

  lemma ParseIntSigned(sign: char, digits: string)
    requires sign == '+' || sign == '-'
    requires |digits| > 0 && AllDigits(digits)
    ensures var v := if sign == '-' then -(DigitsValue(digits) as int) else DigitsValue(digits);
      ParseInt([sign] + digits) == if IntMin <= v <= IntMax then Some(v) else None
  {
    var s := [sign] + digits;
    assert s[0] == sign;
    assert s[1..] == digits;
  }

  /** A leading zero does not change the value. */
  lemma {:induction false} LeadingZero(digits: string)
    requires AllDigits(digits)
    ensures AllDigits("0" + digits) && DigitsValue("0" + digits) == DigitsValue(digits)
    decreases |digits|
  {
    var z := "0" + digits;
    if digits != [] {
      assert z[..|z| - 1] == "0" + digits[..|digits| - 1];
      LeadingZero(digits[..|digits| - 1]);
    }
  }

  /** Leading zeros are accepted and ignored. */
  lemma ParseIntLeadingZero(digits: string)
    requires |digits| > 0 && AllDigits(digits)
    ensures ParseInt("0" + digits) == ParseInt(digits)
  {
    LeadingZero(digits);
    ParseIntValue(digits);
    ParseIntValue("0" + digits);
  }

  /** `Int("+5") == 5` and `Int("-0") == 0`. */
  lemma ParseIntSignExamples()
    ensures ParseInt("+5") == Some(5)
    ensures ParseInt("-0") == Some(0)
  {
    ParseIntSigned('+', "5");
    ParseIntSigned('-', "0");
    assert "+5" == ['+'] + "5" && "-0" == ['-'] + "0";
  }

  /** `Int("007") == 7`; a lone sign, an empty string and a leading space
      are refused. */
  lemma ParseIntOtherExamples()
    ensures ParseInt("007") == Some(7)
    ensures ParseInt("+") == None && ParseInt("") == None && ParseInt(" 7") == None
  {
    ParseIntUnsigned("7");
    assert DigitsValue("7") == 7;
    assert "07" == "0" + "7";
    ParseIntLeadingZero("7");
    assert "007" == "0" + "07";
    ParseIntLeadingZero("07");
  }

  /** Decimal digits of a natural number, without leading zeros. */
  function NatToString(n: nat): (r: string)
    ensures |r| > 0 && AllDigits(r) && DigitsValue(r) == n
    ensures |r| > 1 ==> r[0] != '0'
  {
    if n < 10 then [DigitChar(n)]
    else
      var r := NatToString(n / 10) + [DigitChar(n % 10)];
      assert r[..|r| - 1] == NatToString(n / 10);
      r
  }

  /** String interpolation of an integer. */
  function IntToString(n: int): string
  {
    if n < 0 then "-" + NatToString(-n) else NatToString(n)
  }

  /** `Int(String(n)) == n` for every `Int`. */
  lemma IntToStringParses(n: int)
    requires IntMin <= n <= IntMax
    ensures ParseInt(IntToString(n)) == Some(n)
  {
    var s := IntToString(n);
    if n < 0 {
      assert s[1..] == NatToString(-n);
    } else {
      assert IsDigit(s[0]);
    }
  }
}
