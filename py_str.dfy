/** The Python string operations the agents use: `str.strip`, `startswith`,
    `in`, case-insensitive literal search (a fixed piece of a regular
    expression under `re.IGNORECASE`), `split` and `join` on one separator,
    and `str(n)` for a natural number. */
module PyStr {
  import opened PyBase

  /** `str.isspace()` of one character; `\s` in a str pattern matches the
      same characters. */
  predicate IsSpace(c: char) {
    ('\t' <= c <= '\r') || ('\U{1C}' <= c <= '\U{1F}') || c == ' '
    || c == '\U{85}' || c == '\U{A0}' || c == '\U{1680}'
    || ('\U{2000}' <= c <= '\U{200A}') || c == '\U{2028}' || c == '\U{2029}'
    || c == '\U{202F}' || c == '\U{205F}' || c == '\U{3000}'
  }

  /** No whitespace at either end: what `strip()` always returns. */
  predicate Trimmed(s: string) {
    s == [] || (!IsSpace(s[0]) && !IsSpace(s[|s| - 1]))
  }

  /** The first offset at or after `i` that holds no whitespace, or `|s|`. */
  function SkipSpaces(s: string, i: nat): (j: nat)
    requires i <= |s|
    ensures i <= j <= |s|
    ensures forall k :: i <= k < j ==> IsSpace(s[k])
    ensures j == |s| || !IsSpace(s[j])
    decreases |s| - i
  {
    if i < |s| && IsSpace(s[i]) then SkipSpaces(s, i + 1) else i
  }

  /** Going back from `j` towards `lo` over whitespace: one past the last
      non-whitespace character in `s[lo..j]`, or `lo`. */
  function BackSpaces(s: string, lo: nat, j: nat): (e: nat)
    requires lo <= j <= |s|
    ensures lo <= e <= j
    ensures forall k :: e <= k < j ==> IsSpace(s[k])
    ensures e == lo || !IsSpace(s[e - 1])
    decreases j
  {
    if j > lo && IsSpace(s[j - 1]) then BackSpaces(s, lo, j - 1) else j
  }

  /** `s.strip()`: the middle of `s` once the whitespace runs at both ends
      are cut off. */
  function Strip(s: string): (r: string)
    ensures Trimmed(r)
    ensures Trimmed(s) ==> r == s
    ensures r == [] <==> forall i :: 0 <= i < |s| ==> IsSpace(s[i])
  {
    var lo := SkipSpaces(s, 0);
    s[lo..BackSpaces(s, lo, |s|)]
  }

  /** What `strip()` removes is whitespace at the two ends, and what it keeps
      is the contiguous piece between them. */
  lemma StripKeepsMiddle(s: string)
    ensures var lo := SkipSpaces(s, 0); var hi := BackSpaces(s, lo, |s|);
      && Strip(s) == s[lo..hi]
      && (forall i :: 0 <= i < lo ==> IsSpace(s[i]))
      && (forall i :: hi <= i < |s| ==> IsSpace(s[i]))
  {
  }

  predicate StartsWith(s: string, prefix: string) {
    |prefix| <= |s| && s[..|prefix|] == prefix
  }

  predicate EndsWith(s: string, suffix: string) {
    |suffix| <= |s| && s[|s| - |suffix|..] == suffix
  }

  /** `needle in hay` for two strings. */
  predicate Contains(hay: string, needle: string) {
    exists i :: 0 <= i <= |hay| - |needle| && StartsWith(hay[i..], needle)
  }

  function AsciiLower(c: char): char {
    if 'A' <= c <= 'Z' then (c as int + 32) as char else c
  }

  /** Whether text character `c` matches the lower-case pattern character `p`
      under `re.IGNORECASE`: ASCII case folding, plus the four non-ASCII
      letters Python's case-insensitive matching puts beside ASCII letters
      (U+0130 and U+0131 beside `i`, U+017F beside `s`, U+212A beside
      `k`). */
  predicate FoldsTo(c: char, p: char) {
    || AsciiLower(c) == p
    || (p == 'i' && (c == '\U{130}' || c == '\U{131}'))
    || (p == 's' && c == '\U{17F}')
    || (p == 'k' && c == '\U{212A}')
  }

  /** The lower-case literal `pat` occurs in `text` at offset `at`, ignoring case. */
  predicate MatchesAtCI(text: string, pat: string, at: int) {
    0 <= at && at + |pat| <= |text| && forall k :: 0 <= k < |pat| ==> FoldsTo(text[at + k], pat[k])
  }

  /** The first offset at or after `from` where `pat` occurs, ignoring case. */
  function FindCI(text: string, pat: string, from: nat): (r: Option<nat>)
    ensures r.Some? ==> from <= r.value && MatchesAtCI(text, pat, r.value)
    ensures forall j :: from <= j && (r.None? || j < r.value) ==> !MatchesAtCI(text, pat, j)
    decreases |text| - from
  {
    if from + |pat| > |text| then None
    else if MatchesAtCI(text, pat, from) then Some(from)
    else FindCI(text, pat, from + 1)
  }

  /** Text appended after an occurrence does not move the first occurrence. */
  lemma {:induction false} FindCIExtend(text: string, more: string, pat: string, from: nat)
    requires FindCI(text, pat, from).Some?
    ensures FindCI(text + more, pat, from) == FindCI(text, pat, from)
    decreases |text| - from
  {
    assert forall j :: j + |pat| <= |text| ==> (MatchesAtCI(text + more, pat, j) <==> MatchesAtCI(text, pat, j)) by {
      forall j | j + |pat| <= |text|
        ensures MatchesAtCI(text + more, pat, j) <==> MatchesAtCI(text, pat, j)
      {
        if 0 <= j {
          assert forall m :: j <= m < j + |pat| ==> (text + more)[m] == text[m];
        }
      }
    }
    if !MatchesAtCI(text, pat, from) {
      FindCIExtend(text, more, pat, from + 1);
    }
  }

  /** An occurrence at `at` is an occurrence at the start of any slice that
      begins at `at` and holds the whole occurrence. */
  lemma MatchesAtSlice(text: string, pat: string, at: nat, end: nat)
    requires MatchesAtCI(text, pat, at) && at + |pat| <= end <= |text|
    ensures MatchesAtCI(text[at..end], pat, 0)
  {
    forall k | 0 <= k < |pat| ensures FoldsTo(text[at..end][k], pat[k]) {
      assert text[at..end][k] == text[at + k];
    }
  }

  /** An occurrence at the start of a slice is an occurrence in the whole
      text at the slice's offset. */
  lemma SliceMatchesAt(text: string, pat: string, at: nat, end: nat)
    requires at <= end <= |text| && MatchesAtCI(text[at..end], pat, 0)
    ensures MatchesAtCI(text, pat, at)
  {
    forall k | 0 <= k < |pat| ensures FoldsTo(text[at + k], pat[k]) {
      assert text[at..end][0 + k] == text[at + k];
    }
  }

  /** The part of `s` before the first `sep`, or all of `s`. */
  function TakeUntil(s: string, sep: char): (r: string)
    ensures |r| <= |s| && r == s[..|r|] && sep !in r
    ensures |r| == |s| || s[|r|] == sep
  {
    if s == [] || s[0] == sep then "" else [s[0]] + TakeUntil(s[1..], sep)
  }

  /** `s.split(sep)` for a one-character separator. */
  function Split(s: string, sep: char): (r: seq<string>)
    ensures |r| >= 1
    ensures forall k :: 0 <= k < |r| ==> sep !in r[k]
  {
    if s == [] then [""]
    else
      var rest := Split(s[1..], sep);
      if s[0] == sep then [""] + rest else [[s[0]] + rest[0]] + rest[1..]
  }

  /** `sep.join(parts)` */
  function Join(sep: string, parts: seq<string>): string {
    if parts == [] then "" else if |parts| == 1 then parts[0] else parts[0] + sep + Join(sep, parts[1..])
  }

  /** Joining two non-empty lists puts one separator between them. */
  lemma {:induction false} JoinAppend(sep: string, a: seq<string>, b: seq<string>)
    requires a != [] && b != []
    ensures Join(sep, a + b) == Join(sep, a) + sep + Join(sep, b)
  {
    if |a| == 1 {
      assert (a + b)[1..] == b;
    } else {
      assert (a + b)[1..] == a[1..] + b;
      JoinAppend(sep, a[1..], b);
    }
  }

  /** Joining one more part in front of a non-empty list. */
  lemma JoinCons(sep: string, x: string, rest: seq<string>)
    requires rest != []
    ensures Join(sep, [x] + rest) == x + sep + Join(sep, rest)
  {
    assert ([x] + rest)[1..] == rest;
  }

  /** A separator after a separator-free piece splits exactly there. */
  lemma {:induction false} SplitAtFirst(a: string, b: string, sep: char)
    requires sep !in a
    ensures Split(a + [sep] + b, sep) == [a] + Split(b, sep)
  {
    if a == [] {
      assert a + [sep] + b == [sep] + b;
      assert ([sep] + b)[1..] == b;
    } else {
      var s := a + [sep] + b;
      assert s[1..] == a[1..] + [sep] + b;
      SplitAtFirst(a[1..], b, sep);
      assert [a[0]] + a[1..] == a;
    }
  }

  /** The first piece of a split is what comes before the first separator. */
  lemma {:induction false} SplitHead(s: string, sep: char)
    ensures Split(s, sep)[0] == TakeUntil(s, sep)
  {
    if s != [] && s[0] != sep {
      SplitHead(s[1..], sep);
    }
  }

  /** Joining the pieces of a split gives back the string. */
  lemma {:induction false} SplitJoin(s: string, sep: char)
    ensures Join([sep], Split(s, sep)) == s
  {
    if s != [] {
      SplitJoin(s[1..], sep);
      var rest := Split(s[1..], sep);
      if s[0] == sep {
        assert ([""] + rest)[1..] == rest;
      } else {
        if |rest| > 1 {
          assert Join([sep], rest) == rest[0] + [sep] + Join([sep], rest[1..]);
          assert ([[s[0]] + rest[0]] + rest[1..])[1..] == rest[1..];
        }
      }
    }
  }

  /** Splitting a join of separator-free pieces gives back the pieces. */
  lemma {:induction false} JoinSplit(parts: seq<string>, sep: char)
    requires parts != []
    requires forall k :: 0 <= k < |parts| ==> sep !in parts[k]
    ensures Split(Join([sep], parts), sep) == parts
  {
    if |parts| == 1 {
      NoSepSplit(parts[0], sep);
    } else {
      JoinSplit(parts[1..], sep);
      assert Join([sep], parts) == parts[0] + [sep] + Join([sep], parts[1..]);
      SplitAtFirst(parts[0], Join([sep], parts[1..]), sep);
      assert [parts[0]] + parts[1..] == parts;
    }
  }

  /** A string without the separator splits into itself. */
  lemma {:induction false} NoSepSplit(s: string, sep: char)
    requires sep !in s
    ensures Split(s, sep) == [s]
  {
    if s != [] {
      NoSepSplit(s[1..], sep);
      assert [s[0]] + s[1..] == s;
    }
  }

  function Digit(d: nat): char
    requires d < 10
  {
    ('0' as int + d) as char
  }

  /** `str(n)` for a natural number: its decimal digits, with no leading
      zero unless `n` is 0. */
  function NatStr(n: nat): (r: string)
    ensures r != [] && forall i :: 0 <= i < |r| ==> '0' <= r[i] <= '9'
    ensures r[0] == '0' <==> n == 0
  {
    if n < 10 then [Digit(n)] else NatStr(n / 10) + [Digit(n % 10)]
  }

  /** The value of a string of decimal digits. */
  function DecimalValue(s: string): nat
    requires forall i :: 0 <= i < |s| ==> '0' <= s[i] <= '9'
  {
    if s == [] then 0 else DecimalValue(s[..|s| - 1]) * 10 + (s[|s| - 1] as int - '0' as int)
  }

  /** `str(n)` reads back as `n`. */
  lemma {:induction false} NatStrValue(n: nat)
    ensures DecimalValue(NatStr(n)) == n
  {
    if n >= 10 {
      NatStrValue(n / 10);
      var s := NatStr(n);
      assert s[..|s| - 1] == NatStr(n / 10);
    }
  }
}
