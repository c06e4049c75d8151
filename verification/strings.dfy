/** The JavaScript string primitives the pages rely on, with the semantics of
    the language rather than of a path library: `indexOf`, `replace` of the first
    occurrence, `split`/`join` on a one-character separator, `endsWith`,
    `toLowerCase` (ASCII letters only) and `String(n)` for a natural number. */
module Strings {
  import opened Wrappers

  /** JavaScript truthiness of a nullable string: present and non-empty. */
  predicate Truthy(o: Option<string>) {
    o.Some? && o.value != ""
  }

  /** `o || fallback` for a nullable string. */
  function OrElse(o: Option<string>, fallback: string): string {
    if Truthy(o) then o.value else fallback
  }

  predicate StartsWith(s: string, prefix: string) {
    |prefix| <= |s| && s[..|prefix|] == prefix
  }

  predicate EndsWith(s: string, suffix: string) {
    |suffix| <= |s| && s[|s| - |suffix|..] == suffix
  }

  /** `s.indexOf(pat)`: the first position at which `pat` occurs, `None` for -1. */
  function IndexOf(s: string, pat: string): (r: Option<nat>)
    ensures r.Some? ==> r.value <= |s| && StartsWith(s[r.value..], pat)
    ensures r.Some? ==> forall k :: 0 <= k < r.value ==> !StartsWith(s[k..], pat)
    ensures r.None? ==> forall k :: 0 <= k <= |s| ==> !StartsWith(s[k..], pat)
    decreases |s|
  {
    if StartsWith(s, pat) then Some(0)
    else if s == [] then None
    else
      match IndexOf(s[1..], pat)
      case None =>
        assert forall k :: 1 <= k <= |s| ==> s[k..] == s[1..][k - 1..];
        None
      case Some(i) =>
        assert forall k :: 1 <= k <= i + 1 ==> s[k..] == s[1..][k - 1..];
        Some(i + 1)
  }

  /** `s.replace(pat, '')` with a string pattern: only the FIRST occurrence is removed. */
  function RemoveFirst(s: string, pat: string): (r: string)
    ensures IndexOf(s, pat).None? ==> r == s
    ensures IndexOf(s, pat).Some? ==> |r| == |s| - |pat|
    ensures IndexOf(s, pat).Some? ==>
      r == s[..IndexOf(s, pat).value] + s[IndexOf(s, pat).value + |pat|..]
  {
    match IndexOf(s, pat)
    case None => s
    case Some(i) => s[..i] + s[i + |pat|..]
  }

  /** When the pattern is a prefix, removing its first occurrence strips that prefix. */
  lemma RemoveFirstOfPrefix(s: string, pat: string)
    ensures StartsWith(s, pat) ==> RemoveFirst(s, pat) == s[|pat|..]
  {
  }

  /** `parts.join(sep)`; the empty array joins to the empty string. */
  function Join(parts: seq<string>, sep: char): string
    decreases |parts|
  {
    if |parts| == 0 then ""
    else if |parts| == 1 then parts[0]
    else parts[0] + [sep] + Join(parts[1..], sep)
  }

  /** `s.split(sep)`: always at least one part (`"".split('/')` is `[""]`), no part
      contains the separator, and joining the parts back gives `s`. */
  function Split(s: string, sep: char): (r: seq<string>)
    ensures |r| >= 1
    ensures forall i :: 0 <= i < |r| ==> sep !in r[i]
    ensures Join(r, sep) == s
    decreases |s|
  {
    if s == [] then [""]
    else if s[0] == sep then
      var rest := Split(s[1..], sep);
      assert s == [sep] + s[1..];
      [""] + rest
    else
      var rest := Split(s[1..], sep);
      var r := [[s[0]] + rest[0]] + rest[1..];
      assert sep !in [s[0]] + rest[0];
      assert forall i :: 1 <= i < |r| ==> r[i] == rest[i];
      assert Join(r, sep) == [s[0]] + Join(rest, sep) by {
        if |rest| > 1 {
          assert r[1..] == rest[1..];
        }
      }
      assert s == [s[0]] + s[1..];
      r
  }

  /** A string without the separator splits into itself. */
  lemma {:induction false} SplitNoSep(s: string, sep: char)
    requires sep !in s
    ensures Split(s, sep) == [s]
    decreases |s|
  {
    if s != [] {
      assert sep !in s[1..];
      SplitNoSep(s[1..], sep);
    }
  }

  /** Splitting distributes over a separator: the parts of `a + sep + b` are the
      parts of `a` followed by the parts of `b`. */
  lemma {:induction false} SplitAppend(a: string, b: string, sep: char)
    ensures Split(a + [sep] + b, sep) == Split(a, sep) + Split(b, sep)
    decreases |a|
  {
    var s := a + [sep] + b;
    if a == [] {
      assert s[0] == sep && s[1..] == b;
    } else {
      assert s[0] == a[0];
      assert s[1..] == a[1..] + [sep] + b;
      SplitAppend(a[1..], b, sep);
    }
  }

  /** The other half of the round trip: parts without the separator survive a
      join followed by a split. */
  lemma {:induction false} SplitJoin(parts: seq<string>, sep: char)
    requires |parts| >= 1
    requires forall i :: 0 <= i < |parts| ==> sep !in parts[i]
    ensures Split(Join(parts, sep), sep) == parts
    decreases |parts|
  {
    if |parts| == 1 {
      SplitNoSep(parts[0], sep);
    } else {
      SplitNoSep(parts[0], sep);
      SplitJoin(parts[1..], sep);
      SplitAppend(parts[0], Join(parts[1..], sep), sep);
      assert parts == [parts[0]] + parts[1..];
    }
  }

  /** Joining a sequence extended by one part adds one separator. */
  lemma {:induction false} JoinSnoc(parts: seq<string>, last: string, sep: char)
    requires |parts| >= 1
    ensures Join(parts + [last], sep) == Join(parts, sep) + [sep] + last
    decreases |parts|
  {
    if |parts| == 1 {
    } else {
      assert (parts + [last])[1..] == parts[1..] + [last];
      JoinSnoc(parts[1..], last, sep);
    }
  }

  function LowerChar(c: char): char {
    if 'A' <= c <= 'Z' then (c as int + 32) as char else c
  }

  /** `s.toLowerCase()` restricted to ASCII letters. */
  function Lower(s: string): (r: string)
    ensures |r| == |s|
    ensures forall i :: 0 <= i < |s| ==> r[i] == LowerChar(s[i])
  {
    seq(|s|, i requires 0 <= i < |s| => LowerChar(s[i]))
  }

  /** The last element of `s.split(sep)`, as `split(sep).pop()` returns it. */
  function LastPart(s: string, sep: char): string {
    var parts := Split(s, sep);
    parts[|parts| - 1]
  }

  /** If `s` ends with a separator followed by a separator-free tail, that tail is
      its last part. */
  lemma LastPartOfSuffix(s: string, tail: string, sep: char)
    requires sep !in tail
    requires EndsWith(s, [sep] + tail)
    ensures LastPart(s, sep) == tail
  {
    var a := s[..|s| - |tail| - 1];
    assert s == a + [sep] + tail;
    SplitAppend(a, tail, sep);
    SplitNoSep(tail, sep);
  }

  /** Text after the last separator: whichever separator has none after it, the text
      following it is the last part. */
  lemma LastPartAfterLastSep(s: string, sep: char)
    ensures forall k :: 0 <= k < |s| && s[k] == sep && sep !in s[k + 1..] ==> LastPart(s, sep) == s[k + 1..]
  {
    forall k | 0 <= k < |s| && s[k] == sep && sep !in s[k + 1..]
      ensures LastPart(s, sep) == s[k + 1..]
    {
      assert s[k..] == [sep] + s[k + 1..];
      LastPartOfSuffix(s, s[k + 1..], sep);
    }
  }

  predicate IsDigit(c: char) {
    '0' <= c <= '9'
  }

  function DigitChar(d: nat): (c: char)
    requires d < 10
    ensures IsDigit(c) && c as int - '0' as int == d
  {
    ('0' as int + d) as char
  }

  /** The number a run of decimal digits spells, most significant first; the
      reference reading of `String(n)`. */
  function DigitsValue(ds: string): nat
    requires forall i :: 0 <= i < |ds| ==> IsDigit(ds[i])
    decreases |ds|
  {
    if |ds| == 0 then 0
    else
      assert IsDigit(ds[|ds| - 1]);
      DigitsValue(ds[..|ds| - 1]) * 10 + (ds[|ds| - 1] as int - '0' as int) as nat
  }

  /** `String(n)` for a natural number: its decimal digits, most significant first,
      spelling `n`, without a leading zero. */
  function Decimal(n: nat): (r: string)
    ensures |r| >= 1
    ensures forall i :: 0 <= i < |r| ==> IsDigit(r[i])
    ensures DigitsValue(r) == n
    ensures r[0] == '0' ==> n == 0
    ensures n < 10 <==> |r| == 1
    decreases n
  {
    if n < 10 then [DigitChar(n)]
    else
      var hi := Decimal(n / 10);
      var r := hi + [DigitChar(n % 10)];
      assert r[..|r| - 1] == hi;
      assert r[0] == hi[0];
      r
  }

  /** Decimal rendering is injective: two numbers print the same only when equal. */
  lemma {:induction false} DecimalInjective(m: nat, n: nat)
    requires Decimal(m) == Decimal(n)
    ensures m == n
    decreases n
  {
    if m < 10 && n < 10 {
      assert Decimal(m)[0] == DigitChar(m);
    } else if m >= 10 && n >= 10 {
      var dm, dn := Decimal(m), Decimal(n);
      assert dm[|dm| - 1] == DigitChar(m % 10);
      assert dn[|dn| - 1] == DigitChar(n % 10);
      assert dm[..|dm| - 1] == Decimal(m / 10);
      assert dn[..|dn| - 1] == Decimal(n / 10);
      DecimalInjective(m / 10, n / 10);
    }
  }
}
