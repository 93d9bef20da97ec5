/** The Python `str` operations the downloader relies on, over `string`
    (`seq<char>`): substring search (`t in s`), `strip`, `lower`,
    `replace`, `split` / `join` on one separator, and decimal `str(n)`. */
module Text {

  // ---------------------------------------------------------------------
  // Substring search
  // ---------------------------------------------------------------------

  /** `t` occurs in `s` starting at index `i`, compared character by
      character (so that it also evaluates on literals). */
  predicate OccursAt(s: string, t: string, i: int)
    decreases |t|
  {
    0 <= i <= |s| && (|t| == 0 || (i < |s| && s[i] == t[0] && OccursAt(s, t[1..], i + 1)))
  }

  /** Python's `t in s` on strings. */
  predicate Contains(s: string, t: string) {
    exists i | 0 <= i <= |s| :: OccursAt(s, t, i)
  }

  /** An occurrence is exactly an equal slice. */
  lemma {:induction false} OccursAtSlice(s: string, t: string, i: int)
    ensures OccursAt(s, t, i) <==> 0 <= i && i + |t| <= |s| && s[i..i + |t|] == t
    decreases |t|
  {
    if |t| > 0 && 0 <= i < |s| {
      OccursAtSlice(s, t[1..], i + 1);
      if i + |t| <= |s| {
        assert s[i..i + |t|] == [s[i]] + s[i + 1..i + 1 + |t[1..]|];
        assert t == [t[0]] + t[1..];
      }
    }
  }

  /** Witness form: an equal slice is an occurrence. */
  lemma ContainsAt(s: string, t: string, i: int)
    requires 0 <= i && i + |t| <= |s| && s[i..i + |t|] == t
    ensures Contains(s, t)
  {
    OccursAtSlice(s, t, i);
  }

  /** Every string contains the empty string. */
  lemma ContainsEmpty(s: string)
    ensures Contains(s, "")
  {
    assert OccursAt(s, "", 0);
  }

  /** A non-empty needle can only occur where its first character does. */
  lemma ContainsFirstChar(s: string, t: string)
    requires |t| > 0 && Contains(s, t)
    ensures t[0] in s
  {
    var i :| 0 <= i <= |s| && OccursAt(s, t, i);
    OccursAtSlice(s, t, i);
    assert s[i..i + |t|][0] == t[0];
  }

  /** An occurrence inside a slice is an occurrence in the whole string. */
  lemma ContainsInSlice(s: string, a: int, b: int, t: string)
    requires 0 <= a <= b <= |s|
    requires Contains(s[a..b], t)
    ensures Contains(s, t)
  {
    var i :| 0 <= i <= |s[a..b]| && OccursAt(s[a..b], t, i);
    OccursAtSlice(s[a..b], t, i);
    assert i + |t| <= b - a;
    var u := s[a..b];
    forall j | 0 <= j < |t|
      ensures s[a + i + j] == t[j]
    {
      assert u[i..i + |t|][j] == t[j];
      assert u[i + j] == s[a + i + j];
    }
    assert s[a + i..a + i + |t|] == t;
    ContainsAt(s, t, a + i);
  }

  /** An occurrence in `a + [c] + b` lies in `a`, lies in `b`, or covers
      the `c`. */
  lemma ContainsAcrossSeparator(a: string, c: char, b: string, t: string)
    requires Contains(a + [c] + b, t)
    ensures Contains(a, t) || Contains(b, t) || c in t
  {
    var s := a + [c] + b;
    var i :| 0 <= i <= |s| && OccursAt(s, t, i);
    OccursAtSlice(s, t, i);
    if i + |t| <= |a| {
      assert s[i..i + |t|] == a[i..i + |t|];
      ContainsAt(a, t, i);
    } else if i > |a| {
      var m := i - |a| - 1;
      forall j | 0 <= j < |t|
        ensures b[m + j] == t[j]
      {
        assert s[i..i + |t|][j] == t[j];
        assert s[i + j] == b[m + j];
      }
      assert b[m..m + |t|] == t;
      ContainsAt(b, t, m);
    } else {
      assert s[i..i + |t|][|a| - i] == c;
    }
  }

  // ---------------------------------------------------------------------
  // Whitespace, case and character replacement
  // ---------------------------------------------------------------------

  /** Python's `str.isspace` for one character (the full Python 3 set). */
  predicate IsSpace(c: char) {
    || '\t' <= c <= '\r'
    || '\U{1C}' <= c <= '\U{1F}'
    || c == ' '
    || c == '\U{85}'
    || c == '\U{A0}'
    || c == '\U{1680}'
    || '\U{2000}' <= c <= '\U{200A}'
    || c == '\U{2028}'
    || c == '\U{2029}'
    || c == '\U{202F}'
    || c == '\U{205F}'
    || c == '\U{3000}'
  }

  /** Empty or made only of whitespace. */
  predicate IsBlank(s: string) {
    forall i :: 0 <= i < |s| ==> IsSpace(s[i])
  }

  /** `str.replace(a, b)` for single characters. */
  function ReplaceChar(s: string, a: char, b: char): (r: string)
    ensures |r| == |s|
    ensures forall i :: 0 <= i < |s| ==> r[i] == if s[i] == a then b else s[i]
  {
    if s == [] then [] else [if s[0] == a then b else s[0]] + ReplaceChar(s[1..], a, b)
  }

  /** `str.lower` restricted to ASCII letters. */
  function LowerChar(c: char): char {
    if 'A' <= c <= 'Z' then (c as int + 32) as char else c
  }

  /** `str.upper` restricted to ASCII letters. */
  function UpperChar(c: char): char {
    if 'a' <= c <= 'z' then (c as int - 32) as char else c
  }

  function Lower(s: string): (r: string)
    ensures |r| == |s|
    ensures forall i :: 0 <= i < |s| ==> r[i] == LowerChar(s[i])
  {
    if s == [] then [] else [LowerChar(s[0])] + Lower(s[1..])
  }

  function Upper(s: string): (r: string)
    ensures |r| == |s|
    ensures forall i :: 0 <= i < |s| ==> r[i] == UpperChar(s[i])
  {
    if s == [] then [] else [UpperChar(s[0])] + Upper(s[1..])
  }

  /** `str.lstrip(c)`: drop every leading `c`. */
  function LStrip(s: string, c: char): (r: string)
    ensures |r| <= |s| && r == s[|s| - |r|..]
    ensures |r| > 0 ==> r[0] != c
    ensures forall i :: 0 <= i < |s| - |r| ==> s[i] == c
    decreases |s|
  {
    if |s| > 0 && s[0] == c then LStrip(s[1..], c) else s
  }

  /** `str.rstrip(c)`: drop every trailing `c`. */
  function RStrip(s: string, c: char): (r: string)
    ensures |r| <= |s| && r == s[..|r|]
    ensures |r| > 0 ==> r[|r| - 1] != c
    ensures forall i :: |r| <= i < |s| ==> s[i] == c
    decreases |s|
  {
    if |s| > 0 && s[|s| - 1] == c then RStrip(s[..|s| - 1], c) else s
  }

  // ---------------------------------------------------------------------
  // split / join on one separator character
  // ---------------------------------------------------------------------

  /** Index of the first `c` in `s` (`str.index`). */
  function IndexOf(s: string, c: char): (i: nat)
    requires c in s
    ensures i < |s| && s[i] == c && c !in s[..i]
  {
    if s[0] == c then 0 else IndexOf(s[1..], c) + 1
  }

  /** Index of the last `c` in `s`, or -1 (`str.rfind`). */
  function RFind(s: string, c: char): (i: int)
    ensures -1 <= i < |s|
    ensures i >= 0 ==> s[i] == c
    ensures forall j :: i < j < |s| ==> s[j] != c
  {
    if |s| == 0 then -1
    else if s[|s| - 1] == c then |s| - 1
    else RFind(s[..|s| - 1], c)
  }

  /** `s.split(sep)`: always at least one part, and no part holds `sep`. */
  function Split(s: string, sep: char): (parts: seq<string>)
    ensures |parts| >= 1
    ensures forall k :: 0 <= k < |parts| ==> sep !in parts[k]
    decreases |s|
  {
    if sep !in s then [s]
    else
      var i := IndexOf(s, sep);
      [s[..i]] + Split(s[i + 1..], sep)
  }

  /** `sep.join(parts)`. */
  function Join(parts: seq<string>, sep: char): string
    decreases |parts|
  {
    if |parts| == 0 then ""
    else if |parts| == 1 then parts[0]
    else parts[0] + [sep] + Join(parts[1..], sep)
  }

  /** The first separator of `a + [sep] + b` is the first one of `a`, or
      the one that was inserted. */
  lemma IndexOfConcat(a: string, sep: char, b: string)
    ensures sep !in a ==> IndexOf(a + [sep] + b, sep) == |a|
    ensures sep in a ==> IndexOf(a + [sep] + b, sep) == IndexOf(a, sep)
  {
    var s := a + [sep] + b;
    if sep !in a {
      assert s[..|a|] == a;
      assert s[|a|] == sep;
    } else {
      var j := IndexOf(a, sep);
      assert s[..j] == a[..j];
      assert s[j] == sep;
    }
  }

  /** Splitting at the first separator. */
  lemma SplitAtFirst(a: string, sep: char, b: string)
    requires sep !in a
    ensures Split(a + [sep] + b, sep) == [a] + Split(b, sep)
  {
    var s := a + [sep] + b;
    IndexOfConcat(a, sep, b);
    assert s[|a|] == sep;
    assert s[..|a|] == a;
    assert s[|a| + 1..] == b;
  }

  /** Joining one more part onto the front. */
  lemma JoinCons(x: string, r: seq<string>, sep: char)
    requires |r| >= 1
    ensures Join([x] + r, sep) == x + [sep] + Join(r, sep)
  {
    assert ([x] + r)[0] == x;
    assert ([x] + r)[1..] == r;
  }

  /** Joining what was split gives back the string. */
  lemma {:induction false} JoinSplit(s: string, sep: char)
    ensures Join(Split(s, sep), sep) == s
    decreases |s|
  {
    if sep in s {
      var i := IndexOf(s, sep);
      var a, b := s[..i], s[i + 1..];
      assert s == a + [sep] + b;
      SplitAtFirst(a, sep, b);
      JoinSplit(b, sep);
      JoinCons(a, Split(b, sep), sep);
    }
  }

  /** Splitting what was joined gives back the parts, provided none of them
      holds the separator. */
  lemma {:induction false} SplitJoin(parts: seq<string>, sep: char)
    requires |parts| >= 1
    requires forall k :: 0 <= k < |parts| ==> sep !in parts[k]
    ensures Split(Join(parts, sep), sep) == parts
    decreases |parts|
  {
    if |parts| == 1 {
      assert Join(parts, sep) == parts[0];
    } else {
      var rest := Join(parts[1..], sep);
      assert Join(parts, sep) == parts[0] + [sep] + rest;
      SplitAtFirst(parts[0], sep, rest);
      SplitJoin(parts[1..], sep);
      assert parts == [parts[0]] + parts[1..];
    }
  }

  /** Splitting distributes over a separator. */
  lemma {:induction false} SplitConcat(a: string, sep: char, b: string)
    ensures Split(a + [sep] + b, sep) == Split(a, sep) + Split(b, sep)
    decreases |a|
  {
    if sep !in a {
      SplitAtFirst(a, sep, b);
    } else {
      var i := IndexOf(a, sep);
      var a1, a2 := a[..i], a[i + 1..];
      assert a == a1 + [sep] + a2;
      SplitConcat(a2, sep, b);
      SplitConcatStep(a, a1, a2, sep, b);
    }
  }

  /** The inductive step of `SplitConcat`: the first part splits off on
      both sides alike. */
  lemma SplitConcatStep(a: string, a1: string, a2: string, sep: char, b: string)
    requires sep !in a1 && a == a1 + [sep] + a2
    requires Split(a2 + [sep] + b, sep) == Split(a2, sep) + Split(b, sep)
    ensures Split(a + [sep] + b, sep) == Split(a, sep) + Split(b, sep)
  {
    var tail := a2 + [sep] + b;
    Regroup(a1, a2, b, sep);
    SplitAtFirst(a1, sep, tail);
    SplitAtFirst(a1, sep, a2);
    AppendAssoc([a1], Split(a2, sep), Split(b, sep));
  }

  lemma Regroup(a1: string, a2: string, b: string, sep: char)
    ensures (a1 + [sep] + a2) + [sep] + b == a1 + [sep] + (a2 + [sep] + b)
  {
  }

  lemma AppendAssoc<T>(x: seq<T>, y: seq<T>, z: seq<T>)
    ensures x + (y + z) == (x + y) + z
  {
  }

  /** Whatever a part contains, the split string contains. */
  lemma {:induction false} SplitPartContains(s: string, sep: char, k: int, t: string)
    requires 0 <= k < |Split(s, sep)|
    requires Contains(Split(s, sep)[k], t)
    ensures Contains(s, t)
    decreases |s|
  {
    if sep in s {
      var i := IndexOf(s, sep);
      if k == 0 {
        ContainsInSlice(s, 0, i, t);
      } else {
        SplitPartContains(s[i + 1..], sep, k - 1, t);
        assert s[i + 1..] == s[i + 1..|s|];
        ContainsInSlice(s, i + 1, |s|, t);
      }
    }
  }

  /** A non-empty needle without the separator found in a join was found in
      one of the parts. */
  lemma {:induction false} JoinContains(parts: seq<string>, sep: char, t: string)
    requires |t| > 0 && sep !in t
    requires Contains(Join(parts, sep), t)
    ensures exists k :: 0 <= k < |parts| && Contains(parts[k], t)
    decreases |parts|
  {
    if |parts| == 0 {
      ContainsFirstChar("", t);
    } else if |parts| == 1 {
      assert Contains(parts[0], t);
    } else {
      ContainsAcrossSeparator(parts[0], sep, Join(parts[1..], sep), t);
      if !Contains(parts[0], t) {
        JoinContains(parts[1..], sep, t);
        var k :| 0 <= k < |parts[1..]| && Contains(parts[1..][k], t);
        assert Contains(parts[k + 1], t);
      }
    }
  }

  // ---------------------------------------------------------------------
  // Decimal numbers
  // ---------------------------------------------------------------------

  predicate IsDigit(c: char) {
    '0' <= c <= '9'
  }

  function DigitChar(d: int): (c: char)
    requires 0 <= d < 10
    ensures IsDigit(c)
  {
    ('0' as int + d) as char
  }

  /** Python's `str(n)` for a non-negative integer. */
  function NatToString(n: nat): (s: string)
    ensures |s| >= 1
    ensures forall i :: 0 <= i < |s| ==> IsDigit(s[i])
  {
    if n < 10 then [DigitChar(n)] else NatToString(n / 10) + [DigitChar(n % 10)]
  }

  /** Python's `str(n)` for any integer. */
  function IntToString(n: int): string {
    if n < 0 then "-" + NatToString(-n) else NatToString(n)
  }

  /** Reads a decimal numeral back. */
  function ParseDecimal(s: string): nat
    requires forall i :: 0 <= i < |s| ==> IsDigit(s[i])
  {
    if s == [] then 0
    else
      assert IsDigit(s[|s| - 1]);
      ParseDecimal(s[..|s| - 1]) * 10 + (s[|s| - 1] as int - '0' as int)
  }

  /** Round trip: the numeral of `n` reads back as `n`. */
  lemma {:induction false} ParseNatToString(n: nat)
    ensures ParseDecimal(NatToString(n)) == n
  {
    if n >= 10 {
      ParseNatToString(n / 10);
      var s := NatToString(n);
      assert s[..|s| - 1] == NatToString(n / 10);
    }
  }

  /** Different numbers have different numerals. */
  lemma NatToStringInjective(m: nat, n: nat)
    requires NatToString(m) == NatToString(n)
    ensures m == n
  {
    ParseNatToString(m);
    ParseNatToString(n);
  }
}
