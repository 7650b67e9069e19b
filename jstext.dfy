/** The JavaScript string built-ins that the handlers and the page rely on,
    written with their JavaScript semantics over `seq<char>`. */
module JsText {
  import opened Wrappers

  /** `s.startsWith(prefix)` */
  predicate StartsWith(s: string, prefix: string) {
    |prefix| <= |s| && s[..|prefix|] == prefix
  }

  /** `s.substring(start, end)` when `start <= end`: both indices are clamped to `|s|`. */
  function Substring(s: string, start: nat, end: nat): (r: string)
    requires start <= end
    ensures |r| <= end - start
    ensures start <= |s| ==> |r| == (if end < |s| then end else |s|) - start
    ensures start <= |s| ==> StartsWith(s[start..], r)
    ensures start >= |s| ==> r == ""
  {
    var a := if start < |s| then start else |s|;
    var b := if end < |s| then end else |s|;
    s[a..b]
  }

  /** `s.split(sep)` for a one-character separator: the pieces between separators,
      always at least one (`"".split(".")` is `[""]`). */
  function Split(s: string, sep: char): (parts: seq<string>)
    ensures |parts| >= 1
    ensures forall i :: 0 <= i < |parts| ==> sep !in parts[i]
    decreases |s|
  {
    if s == [] then [""]
    else
      var rest := Split(s[1..], sep);
      if s[0] == sep then [""] + rest
      else [[s[0]] + rest[0]] + rest[1..]
  }

  /** `parts.join(sep)`: the inverse of `Split`. */
  function Join(parts: seq<string>, sep: char): string
    requires |parts| >= 1
    decreases |parts|
  {
    if |parts| == 1 then parts[0] else parts[0] + [sep] + Join(parts[1..], sep)
  }

  /** The last element, which `Array.prototype.pop` returns. */
  function Last<T>(s: seq<T>): T
    requires |s| >= 1
  {
    s[|s| - 1]
  }

  /** Splitting and joining again gives back the original string. */
  lemma {:induction false} JoinSplit(s: string, sep: char)
    ensures Join(Split(s, sep), sep) == s
    decreases |s|
  {
    if s != [] {
      JoinSplit(s[1..], sep);
      var rest := Split(s[1..], sep);
      if s[0] == sep {
        assert s == [sep] + s[1..];
      } else if |rest| == 1 {
        assert s == [s[0]] + s[1..];
      } else {
        var head := [s[0]] + rest[0];
        var parts := [head] + rest[1..];
        assert parts[1..] == rest[1..];
        assert Join(rest, sep) == rest[0] + [sep] + Join(rest[1..], sep);
        assert s == [s[0]] + s[1..];
      }
    }
  }

  /** Joining peels off its last part at the last separator. */
  lemma {:induction false} JoinLast(parts: seq<string>, sep: char)
    requires |parts| >= 2
    ensures Join(parts, sep) == Join(parts[..|parts| - 1], sep) + [sep] + Last(parts)
    decreases |parts|
  {
    if |parts| > 2 {
      JoinLast(parts[1..], sep);
      assert parts[1..][..|parts[1..]| - 1] == parts[..|parts| - 1][1..];
    } else {
      assert parts[..1] == [parts[0]];
    }
  }

  /** `r` is the text of `s` after the last occurrence of `c`, or all of `s`
      when `c` does not occur in it. */
  ghost predicate IsTextAfterLast(s: string, c: char, r: string) {
    && c !in r
    && |r| <= |s|
    && s[|s| - |r|..] == r
    && (|r| == |s| || s[|s| - |r| - 1] == c)
  }

  /** At most one string is the text after the last `c`. */
  lemma TextAfterLastUnique(s: string, c: char, r1: string, r2: string)
    requires IsTextAfterLast(s, c, r1) && IsTextAfterLast(s, c, r2)
    ensures r1 == r2
  {
    NoSeparatorInTail(s, c, r1);
    NoSeparatorInTail(s, c, r2);
  }

  lemma NoSeparatorInTail(s: string, c: char, r: string)
    requires IsTextAfterLast(s, c, r)
    ensures forall k :: |s| - |r| <= k < |s| ==> s[k] != c
  {
    forall k | |s| - |r| <= k < |s|
      ensures s[k] != c
    {
      assert s[k] == r[k - (|s| - |r|)];
    }
  }

  /** `s.split(c).pop()` is the text after the last `c`. */
  lemma SplitLastIsTextAfterLast(s: string, c: char)
    ensures IsTextAfterLast(s, c, Last(Split(s, c)))
  {
    var parts := Split(s, c);
    JoinSplit(s, c);
    if |parts| >= 2 {
      JoinLast(parts, c);
      var front := Join(parts[..|parts| - 1], c);
      assert s == front + [c] + Last(parts);
      assert s[|s| - |Last(parts)|..] == Last(parts);
    }
  }

  /** The text after the last `c` of `p + [c] + e`, where `e` has no `c`, is `e`. */
  lemma SplitLastAfterSeparator(p: string, c: char, e: string)
    requires c !in e
    ensures Last(Split(p + [c] + e, c)) == e
  {
    var s := p + [c] + e;
    SplitLastIsTextAfterLast(s, c);
    assert s[|s| - |e|..] == e;
    assert IsTextAfterLast(s, c, e);
    TextAfterLastUnique(s, c, e, Last(Split(s, c)));
  }

  predicate IsDigit(ch: char) {
    '0' <= ch <= '9'
  }

  predicate AllDigits(s: string) {
    forall i :: 0 <= i < |s| ==> IsDigit(s[i])
  }

  function DigitChar(d: nat): (ch: char)
    requires d < 10
    ensures IsDigit(ch)
  {
    ('0' as int + d) as char
  }

  function DigitValue(ch: char): (d: nat)
    requires IsDigit(ch)
    ensures d < 10
  {
    ch as int - '0' as int
  }

  /** The decimal rendering of an integer in a template literal (`${n}`). */
  function Decimal(n: nat): (r: string)
    ensures |r| >= 1 && AllDigits(r)
  {
    if n < 10 then [DigitChar(n)] else Decimal(n / 10) + [DigitChar(n % 10)]
  }

  /** Reads back a string of decimal digits. */
  function ParseDecimal(s: string): nat
    requires AllDigits(s)
  {
    if s == [] then 0 else ParseDecimal(s[..|s| - 1]) * 10 + DigitValue(s[|s| - 1])
  }

  /** Rendering a number and reading it back gives the number. */
  lemma {:induction false} ParseDecimalOfDecimal(n: nat)
    ensures ParseDecimal(Decimal(n)) == n
  {
    if n >= 10 {
      ParseDecimalOfDecimal(n / 10);
      var r := Decimal(n);
      assert r[..|r| - 1] == Decimal(n / 10);
    }
  }

  /** Splits `s` at the first `c`: the text before it and the text after it. */
  function CutAtFirst(s: string, c: char): (r: Option<(string, string)>)
    ensures r.Some? ==> c !in r.value.0 && s == r.value.0 + [c] + r.value.1
    ensures r.None? <==> c !in s
    decreases |s|
  {
    if s == [] then None
    else if s[0] == c then Some(([], s[1..]))
    else match CutAtFirst(s[1..], c)
      case None => None
      case Some(parts) => Some(([s[0]] + parts.0, parts.1))
  }

  /** Cutting `a + [c] + b` where `a` has no `c` gives back `a` and `b`. */
  lemma {:induction false} CutAtFirstOfJoined(a: string, c: char, b: string)
    requires c !in a
    ensures CutAtFirst(a + [c] + b, c) == Some((a, b))
    decreases |a|
  {
    var s := a + [c] + b;
    if a == [] {
      assert s == [c] + b;
      assert s[1..] == b;
    } else {
      assert s[0] == a[0] && a[0] != c;
      assert s[1..] == a[1..] + [c] + b;
      CutAtFirstOfJoined(a[1..], c, b);
      assert [a[0]] + a[1..] == a;
    }
  }
}
