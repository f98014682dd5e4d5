/**
 * The string operations the harness and the analysis scripts rely on:
 * substring search (Python's `in` and `str.find`), `str.split`, `str.join`,
 * `str.strip`, decimal rendering of integers (C++ `ostream << int`, Python
 * `str(int)`) and Python's `int(str)`.
 */
module Strings {
  import opened Results

  /** `sub` occurs in `s` starting at index `i`. */
  predicate OccursAt(s: string, sub: string, i: nat) {
    i + |sub| <= |s| && s[i..i + |sub|] == sub
  }

  ghost predicate Occurs(s: string, sub: string) {
    exists i: nat :: OccursAt(s, sub, i)
  }

  /** Index of the first occurrence of `sub` at or after `from`, or -1. */
  function FindFrom(s: string, sub: string, from: nat): (r: int)
    requires from <= |s|
    ensures r == -1 || (from <= r && OccursAt(s, sub, r))
    ensures forall j: nat :: from <= j && (r == -1 || j < r) ==> !OccursAt(s, sub, j)
    decreases |s| - from
  {
    if from + |sub| > |s| then -1
    else if s[from..from + |sub|] == sub then from
    else FindFrom(s, sub, from + 1)
  }

  /** Python's `s.find(sub)`: the first occurrence, or -1 when there is none. */
  function Find(s: string, sub: string): (r: int)
    ensures r == -1 <==> !Occurs(s, sub)
    ensures r != -1 ==> r >= 0 && OccursAt(s, sub, r)
    ensures r != -1 ==> forall j: nat :: j < r ==> !OccursAt(s, sub, j)
  {
    FindFrom(s, sub, 0)
  }

  /** Python's `sub in s`. */
  function Contains(s: string, sub: string): (b: bool)
    ensures b <==> Occurs(s, sub)
  {
    Find(s, sub) != -1
  }

  /** No character of `s` equals `c`. */
  predicate Avoids(s: string, c: char) {
    forall k :: 0 <= k < |s| ==> s[k] != c
  }

  /** Python's `sep.join(parts)`. */
  function Join(parts: seq<string>, sep: string): string
    decreases |parts|
  {
    if |parts| == 0 then ""
    else if |parts| == 1 then parts[0]
    else parts[0] + sep + Join(parts[1..], sep)
  }

  /**
   * Python's `s.split(sep)` for a non-empty separator: the pieces between
   * leftmost non-overlapping occurrences of `sep`.
   */
  function Split(s: string, sep: string): (parts: seq<string>)
    requires |sep| > 0
    ensures |parts| >= 1
    decreases |s|
  {
    var i := Find(s, sep);
    if i == -1 then [s]
    else [s[..i]] + Split(s[i + |sep|..], sep)
  }

  /**
   * The pieces rejoin to `s`, none contains `sep`, and there are at least
   * two exactly when `sep` occurs in `s`.
   */
  lemma {:induction false} SplitFacts(s: string, sep: string)
    requires |sep| > 0
    ensures Join(Split(s, sep), sep) == s
    ensures forall k :: 0 <= k < |Split(s, sep)| ==> !Occurs(Split(s, sep)[k], sep)
    ensures |Split(s, sep)| >= 2 <==> Occurs(s, sep)
    decreases |s|
  {
    var i := Find(s, sep);
    if i != -1 {
      var head := s[..i];
      HeadHasNoOccurrence(s, sep, i);
      var rest := Split(s[i + |sep|..], sep);
      SplitFacts(s[i + |sep|..], sep);
      assert ([head] + rest)[1..] == rest;
      assert s == head + sep + s[i + |sep|..] by {
        assert s[i..i + |sep|] == sep;
      }
    }
  }

  /** The text before the first occurrence of `sep` has no occurrence of `sep`. */
  lemma HeadHasNoOccurrence(s: string, sep: string, i: nat)
    requires |sep| > 0 && i <= |s|
    requires forall j: nat :: j < i ==> !OccursAt(s, sep, j)
    ensures !Occurs(s[..i], sep)
  {
    forall j: nat | j + |sep| <= i ensures !OccursAt(s[..i], sep, j) {
      assert j < i;
      assert !OccursAt(s, sep, j);
      assert s[..i][j..j + |sep|] == s[j..j + |sep|];
    }
  }

  /** A string none of whose characters is the first one of `sep` has no occurrence of `sep`. */
  lemma NoOccurrenceWithoutFirstChar(s: string, sep: string)
    requires |sep| > 0 && Avoids(s, sep[0])
    ensures !Occurs(s, sep)
  {
    forall j: nat | j + |sep| <= |s| ensures !OccursAt(s, sep, j) {
      assert s[j..j + |sep|][0] == s[j];
    }
  }

  /**
   * Splitting undoes joining when no part contains the separator's first
   * character: the fields a log line was built from are the fields read back.
   */
  lemma {:induction false} SplitJoin(parts: seq<string>, sep: string)
    requires |sep| > 0 && |parts| >= 1
    requires forall k :: 0 <= k < |parts| ==> Avoids(parts[k], sep[0])
    ensures Split(Join(parts, sep), sep) == parts
    decreases |parts|
  {
    if |parts| == 1 {
      NoOccurrenceWithoutFirstChar(parts[0], sep);
    } else {
      var tail := Join(parts[1..], sep);
      assert Split(Join(parts, sep), sep) == [parts[0]] + Split(tail, sep) by {
        assert Join(parts, sep) == parts[0] + sep + tail;
        SplitAfterHead(parts[0], tail, sep);
      }
      assert Split(tail, sep) == parts[1..] by {
        SplitJoin(parts[1..], sep);
      }
      assert parts == [parts[0]] + parts[1..];
    }
  }

  /** A head without the separator's first character is the first piece. */
  lemma SplitAfterHead(head: string, rest: string, sep: string)
    requires |sep| > 0 && Avoids(head, sep[0])
    ensures Split(head + sep + rest, sep) == [head] + Split(rest, sep)
  {
    var s := head + sep + rest;
    assert OccursAt(s, sep, |head|) by {
      assert s[|head|..|head| + |sep|] == sep;
    }
    forall j: nat | j < |head| ensures !OccursAt(s, sep, j) {
      assert s[j] == head[j];
      if j + |sep| <= |s| {
        assert s[j..j + |sep|][0] == s[j];
      }
    }
    var i := Find(s, sep);
    assert i == |head|;
    assert s[..i] == head;
    assert s[i + |sep|..] == rest;
  }

  /**
   * The first piece of a split is the text before the first separator: a
   * head without the separator's first character is the first piece of the
   * head followed by nothing or by the separator and anything.
   */
  lemma SplitFirstPiece(head: string, tail: string, sep: string)
    requires |sep| > 0 && Avoids(head, sep[0])
    requires tail == [] || (|tail| >= |sep| && tail[..|sep|] == sep)
    ensures Split(head + tail, sep)[0] == head
  {
    if tail == [] {
      assert head + tail == Join([head], sep);
      SplitJoin([head], sep);
    } else {
      assert head + tail == head + sep + tail[|sep|..];
      SplitAfterHead(head, tail[|sep|..], sep);
    }
  }

  /** The characters Python's `str.isspace()` accepts, which `strip()` and `int()` discard. */
  predicate IsSpace(c: char) {
    var n := c as int;
    (9 <= n <= 13) || (28 <= n <= 32) || n == 0x85 || n == 0xA0 || n == 0x1680
    || (0x2000 <= n <= 0x200A) || n == 0x2028 || n == 0x2029 || n == 0x202F
    || n == 0x205F || n == 0x3000
  }

  function StripStart(s: string): (r: string)
    ensures |r| <= |s| && r == s[|s| - |r|..]
    ensures forall k :: 0 <= k < |s| - |r| ==> IsSpace(s[k])
    ensures |r| > 0 ==> !IsSpace(r[0])
    decreases |s|
  {
    if |s| > 0 && IsSpace(s[0]) then StripStart(s[1..]) else s
  }

  function StripEnd(s: string): (r: string)
    ensures |r| <= |s| && r == s[..|r|]
    ensures forall k :: |r| <= k < |s| ==> IsSpace(s[k])
    ensures |r| > 0 ==> !IsSpace(r[|r| - 1])
    decreases |s|
  {
    if |s| > 0 && IsSpace(s[|s| - 1]) then StripEnd(s[..|s| - 1]) else s
  }

  /** `r` is `s[i..j]` and everything of `s` outside that slice is white space. */
  predicate StripBounds(s: string, r: string, i: int, j: int) {
    && 0 <= i <= j <= |s| && r == s[i..j]
    && (forall k :: 0 <= k < i ==> IsSpace(s[k]))
    && (forall k :: j <= k < |s| ==> IsSpace(s[k]))
  }

  /**
   * Python's `s.strip()`: the slice `s[i..j]` such that everything outside it
   * is white space and it neither starts nor ends with white space.
   */
  function Strip(s: string): (r: string)
    ensures exists i, j :: StripBounds(s, r, i, j)
    ensures |r| > 0 ==> !IsSpace(r[0]) && !IsSpace(r[|r| - 1])
  {
    var a := StripStart(s);
    var r := StripEnd(a);
    StripGlue(s, a, r);
    r
  }

  /** White space cut from the front and then from the back is cut from both ends. */
  lemma StripGlue(s: string, a: string, r: string)
    requires |a| <= |s| && a == s[|s| - |a|..]
    requires forall k :: 0 <= k < |s| - |a| ==> IsSpace(s[k])
    requires |r| <= |a| && r == a[..|r|]
    requires forall k :: |r| <= k < |a| ==> IsSpace(a[k])
    ensures StripBounds(s, r, |s| - |a|, |s| - |a| + |r|)
  {
    PrefixOfSuffix(s, |s| - |a|, |r|);
    SpaceAfter(s, |s| - |a|, |r|);
  }

  /** A prefix of the suffix from `i` is the slice from `i`. */
  lemma PrefixOfSuffix<T>(s: seq<T>, i: nat, n: nat)
    requires i + n <= |s|
    ensures s[i..][..n] == s[i..i + n]
  {
  }

  /** White space after `n` characters of the suffix from `i` is white space of `s`. */
  lemma SpaceAfter(s: string, i: nat, n: nat)
    requires i + n <= |s|
    requires forall k :: n <= k < |s[i..]| ==> IsSpace(s[i..][k])
    ensures forall k :: i + n <= k < |s| ==> IsSpace(s[k])
  {
    forall k | i + n <= k < |s|
      ensures IsSpace(s[k])
    {
      assert s[k] == s[i..][k - i];
    }
  }

  /** Stripping keeps every character that is not white space. */
  lemma StripKeeps(s: string, c: char)
    requires !IsSpace(c) && c in s
    ensures c in Strip(s)
  {
    StripStartKeeps(s, c);
    StripEndKeeps(StripStart(s), c);
  }

  lemma StripStartKeeps(s: string, c: char)
    requires !IsSpace(c) && c in s
    ensures c in StripStart(s)
  {
    var r := StripStart(s);
    var k :| 0 <= k < |s| && s[k] == c;
    assert |s| - |r| <= k;
    assert r[k - (|s| - |r|)] == s[k];
  }

  lemma StripEndKeeps(s: string, c: char)
    requires !IsSpace(c) && c in s
    ensures c in StripEnd(s)
  {
    var r := StripEnd(s);
    var k :| 0 <= k < |s| && s[k] == c;
    assert k < |r|;
    assert r[k] == s[k];
  }

  /** A string that neither starts nor ends with white space is its own strip. */
  lemma StripTrimmed(s: string)
    requires |s| > 0 && !IsSpace(s[0]) && !IsSpace(s[|s| - 1])
    ensures Strip(s) == s
  {
  }

  /** A one-character string occurs exactly where its character does. */
  lemma CharOccurs(s: string, c: char)
    ensures Occurs(s, [c]) <==> c in s
  {
    if c in s {
      var k :| 0 <= k < |s| && s[k] == c;
      assert OccursAt(s, [c], k);
    }
    if Occurs(s, [c]) {
      var k: nat :| OccursAt(s, [c], k);
      assert s[k] == c;
    }
  }

  predicate IsDigit(c: char) { '0' <= c <= '9' }

  function DigitChar(d: nat): (c: char)
    requires d < 10
    ensures IsDigit(c)
  {
    ('0' as int + d) as char
  }

  function DigitValue(c: char): nat
    requires IsDigit(c)
  {
    c as int - '0' as int
  }

  /** Decimal digits of `n`, most significant first, without leading zeros. */
  function NatToString(n: nat): (r: string)
    ensures |r| >= 1 && forall k :: 0 <= k < |r| ==> IsDigit(r[k])
    ensures |r| > 1 ==> r[0] != '0'
    decreases n
  {
    if n < 10 then [DigitChar(n)] else NatToString(n / 10) + [DigitChar(n % 10)]
  }

  /** C++ `ostream << n` and Python `str(n)` for an integer. */
  function IntToString(n: int): (r: string)
    ensures |r| >= 1 && !IsSpace(r[0]) && IsDigit(r[|r| - 1])
    ensures forall k :: 0 <= k < |r| ==> IsDigit(r[k]) || (k == 0 && r[k] == '-')
  {
    if n < 0 then "-" + NatToString(-n) else NatToString(n)
  }

  /** The value of a string of decimal digits. */
  function DigitsValue(ds: string): nat
    requires forall k :: 0 <= k < |ds| ==> IsDigit(ds[k])
    decreases |ds|
  {
    if |ds| == 0 then 0 else DigitsValue(ds[..|ds| - 1]) * 10 + DigitValue(ds[|ds| - 1])
  }

  /** `d` with every underscore removed. */
  function DropUnderscores(d: string): (r: string)
    ensures |r| <= |d|
    decreases |d|
  {
    if |d| == 0 then ""
    else (if d[0] == '_' then "" else [d[0]]) + DropUnderscores(d[1..])
  }

  /** Digits and underscores lose their underscores and keep their digits. */
  lemma {:induction false} DropUnderscoresDigits(d: string)
    requires forall k :: 0 <= k < |d| ==> IsDigit(d[k]) || d[k] == '_'
    ensures forall k :: 0 <= k < |DropUnderscores(d)| ==> IsDigit(DropUnderscores(d)[k])
    decreases |d|
  {
    if |d| > 0 {
      DropUnderscoresDigits(d[1..]);
    }
  }

  /** A string without underscores is unchanged. */
  lemma {:induction false} DropUnderscoresNone(d: string)
    requires forall k :: 0 <= k < |d| ==> d[k] != '_'
    ensures DropUnderscores(d) == d
    decreases |d|
  {
    if |d| > 0 {
      DropUnderscoresNone(d[1..]);
      assert d == [d[0]] + d[1..];
    }
  }

  /** The digit part Python's `int()` accepts: digits, optionally grouped by single underscores. */
  predicate DigitGroups(d: string) {
    && |d| > 0 && IsDigit(d[0]) && IsDigit(d[|d| - 1])
    && (forall k :: 0 <= k < |d| ==> IsDigit(d[k]) || d[k] == '_')
    && (forall k :: 0 <= k < |d| - 1 ==> !(d[k] == '_' && d[k + 1] == '_'))
  }

  function ParseDigits(d: string): Option<nat> {
    if DigitGroups(d) then
      DropUnderscoresDigits(d);
      Some(DigitsValue(DropUnderscores(d)))
    else None
  }

  /**
   * Python's `int(s)` in base 10 on ASCII digits: surrounding white space,
   * an optional sign, then digit groups; `None` where Python raises ValueError.
   */
  function ParseInt(s: string): Option<int> {
    var t := Strip(s);
    if |t| > 0 && (t[0] == '-' || t[0] == '+') then
      match ParseDigits(t[1..])
      case None => None
      case Some(v) =>
        var signed: int := if t[0] == '-' then -(v as int) else v as int;
        Some(signed)
    else
      match ParseDigits(t)
      case None => None
      case Some(v) => Some(v)
  }

  lemma {:induction false} DigitsValueOfNatToString(n: nat)
    ensures DigitsValue(NatToString(n)) == n
    decreases n
  {
    var r := NatToString(n);
    if n >= 10 {
      DigitsValueOfNatToString(n / 10);
      assert r[..|r| - 1] == NatToString(n / 10);
    }
  }

  /** `NatToString(n)` is accepted by the digit-group rule with value `n`. */
  lemma ParseDigitsOfNatToString(n: nat)
    ensures ParseDigits(NatToString(n)) == Some(n)
  {
    DropUnderscoresNone(NatToString(n));
    DigitsValueOfNatToString(n);
  }

  lemma ParseIntOfNatString(n: nat)
    ensures ParseInt(NatToString(n)) == Some(n)
  {
    var s := NatToString(n);
    StripTrimmed(s);
    assert s[0] != '-' && s[0] != '+';
    ParseDigitsOfNatToString(n);
  }

  /** `int(str(n)) == n` for every integer, negative ones included. */
  lemma ParseIntOfIntString(n: int)
    ensures ParseInt(IntToString(n)) == Some(n)
  {
    if n >= 0 {
      ParseIntOfNatString(n);
    } else {
      var d := NatToString(-n);
      var s := IntToString(n);
      assert s == "-" + d && s[1..] == d;
      StripTrimmed(s);
      ParseDigitsOfNatToString(-n);
    }
  }

  /** An optional sign, then digits and underscores ending in a digit. */
  predicate IntShaped(t: string) {
    && |t| > 0 && IsDigit(t[|t| - 1])
    && forall k :: 0 <= k < |t| ==> IsDigit(t[k]) || t[k] == '_' || (k == 0 && (t[k] == '-' || t[k] == '+'))
  }

  /** `int()` raises ValueError unless the stripped text is shaped like an integer. */
  lemma ParseIntShape(s: string)
    ensures ParseInt(s).Some? ==> IntShaped(Strip(s))
  {
    var t := Strip(s);
    if ParseInt(s).Some? && |t| > 0 && (t[0] == '-' || t[0] == '+') {
      var d := t[1..];
      assert DigitGroups(d);
      forall k | 1 <= k < |t| ensures IsDigit(t[k]) || t[k] == '_' {
        assert t[k] == d[k - 1];
      }
      assert t[|t| - 1] == d[|d| - 1];
    }
  }

  /**
   * The last piece of a split on a one-character separator, when the text
   * after its last occurrence avoids that character.
   */
  lemma {:induction false} SplitLastPiece(head: string, last: string, sep: string)
    requires |sep| == 1 && Avoids(last, sep[0])
    ensures var parts := Split(head + sep + last, sep); parts[|parts| - 1] == last
    decreases |head|
  {
    var s := head + sep + last;
    assert OccursAt(s, sep, |head|) by {
      assert s[|head|..|head| + |sep|] == sep;
    }
    var i := Find(s, sep);
    assert 0 <= i <= |head|;
    var rest := Split(s[i + 1..], sep);
    assert Split(s, sep) == [s[..i]] + rest;
    if i == |head| {
      assert s[i + 1..] == last;
      NoOccurrenceWithoutFirstChar(last, sep);
    } else {
      assert s[i + 1..] == head[i + 1..] + sep + last;
      SplitLastPiece(head[i + 1..], last, sep);
    }
  }
}
