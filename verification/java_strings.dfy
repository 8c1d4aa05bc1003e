/** The parts of `java.lang.String`, `Integer.parseInt`, `Long.parseLong` and Java's fixed-width
    integer arithmetic that the services rely on, stated over Dafny strings and unbounded integers. */
module JavaString {
  import opened Wrappers

  /* ---------------------------------------------------------------- searching */

  /** `p` occurs in `s` starting at position `k`. */
  predicate OccursAt(s: string, p: string, k: int) {
    0 <= k && k + |p| <= |s| && s[k..k + |p|] == p
  }

  function IndexFrom(s: string, p: string, i: nat): (r: Option<nat>)
    ensures r.Some? ==> i <= r.value && OccursAt(s, p, r.value)
    ensures r.Some? ==> forall k :: i <= k < r.value ==> !OccursAt(s, p, k)
    ensures r.None? ==> forall k :: i <= k ==> !OccursAt(s, p, k)
    decreases |s| - i
  {
    if i + |p| > |s| then None
    else if s[i..i + |p|] == p then Some(i)
    else IndexFrom(s, p, i + 1)
  }

  /** `s.indexOf(p)`: the first position at which `p` occurs, or `None` for Java's -1. */
  function IndexOf(s: string, p: string): (r: Option<nat>)
    ensures r.Some? ==> OccursAt(s, p, r.value)
    ensures r.Some? ==> forall k :: 0 <= k < r.value ==> !OccursAt(s, p, k)
    ensures r.None? ==> forall k :: !OccursAt(s, p, k)
  {
    IndexFrom(s, p, 0)
  }

  /** `s.contains(p)`. */
  predicate Contains(s: string, p: string) {
    IndexOf(s, p).Some?
  }

  lemma ContainsAt(s: string, p: string, k: int)
    requires OccursAt(s, p, k)
    ensures Contains(s, p)
  {
  }

  /** For a one-character pattern, `contains` is membership. */
  lemma ContainsChar(s: string, x: char)
    ensures Contains(s, [x]) <==> x in s
  {
    if x in s {
      var k :| 0 <= k < |s| && s[k] == x;
      assert s[k..k + 1] == [x];
      ContainsAt(s, [x], k);
    } else {
      assert forall k :: OccursAt(s, [x], k) ==> s[k] == x;
    }
  }

  /** `s.substring(s.indexOf(p) + p.length())`: the text after the first occurrence of `p`. */
  function AfterFirst(s: string, p: string): (r: string)
    requires Contains(s, p)
    ensures |r| + |p| <= |s| && r == s[|s| - |r|..]
    ensures OccursAt(s, p, |s| - |r| - |p|)
    ensures forall k :: 0 <= k < |s| - |r| - |p| ==> !OccursAt(s, p, k)
  {
    s[IndexOf(s, p).value + |p|..]
  }

  /** `s.indexOf(c)` for a single character. */
  function IndexOfChar(s: string, c: char): (r: Option<nat>)
    ensures r.Some? ==> r.value < |s| && s[r.value] == c && c !in s[..r.value]
    ensures r.None? <==> c !in s
  {
    if |s| == 0 then None
    else if s[0] == c then Some(0)
    else
      match IndexOfChar(s[1..], c)
      case None => None
      case Some(k) =>
        assert s[..k + 1] == [s[0]] + s[1..][..k];
        Some(k + 1)
  }

  /** `s.lastIndexOf(c)` for a single character. */
  function LastIndexOfChar(s: string, c: char): (r: Option<nat>)
    ensures r.Some? ==> r.value < |s| && s[r.value] == c
    ensures r.Some? ==> forall k :: r.value < k < |s| ==> s[k] != c
    ensures r.None? <==> c !in s
  {
    if |s| == 0 then None
    else if s[|s| - 1] == c then Some(|s| - 1)
    else
      var r := LastIndexOfChar(s[..|s| - 1], c);
      assert r.None? ==> c !in s by {
        if r.None? {
          assert s == s[..|s| - 1] + [s[|s| - 1]];
        }
      }
      r
  }

  /* ---------------------------------------------------------------- splitting */

  /** The fields of `parts` separated by `c`: the inverse of `SplitAll`. */
  function Join(parts: seq<string>, c: char): string
    requires |parts| >= 1
  {
    if |parts| == 1 then parts[0] else parts[0] + [c] + Join(parts[1..], c)
  }

  /** Every field between consecutive occurrences of `c`, empty ones included. */
  function SplitAll(s: string, c: char): (r: seq<string>)
    ensures |r| >= 1
    ensures forall i :: 0 <= i < |r| ==> c !in r[i]
    ensures forall i, ch :: 0 <= i < |r| && ch in r[i] ==> ch in s
    ensures c !in s ==> r == [s]
    ensures Join(r, c) == s
  {
    if |s| == 0 then [""]
    else
      var rest := SplitAll(s[1..], c);
      assert s == [s[0]] + s[1..];
      if s[0] == c then
        JoinEmptyHead(rest, c);
        [""] + rest
      else
        JoinExtendHead(s[0], rest, c);
        [[s[0]] + rest[0]] + rest[1..]
  }

  /** Prepending an empty field puts one separator in front of the join. */
  lemma JoinEmptyHead(rest: seq<string>, c: char)
    requires |rest| >= 1
    ensures Join([""] + rest, c) == [c] + Join(rest, c)
  {
    assert ([""] + rest)[1..] == rest;
  }

  /** Prepending a character to the first field prepends it to the join. */
  lemma JoinExtendHead(x: char, rest: seq<string>, c: char)
    requires |rest| >= 1
    ensures Join([[x] + rest[0]] + rest[1..], c) == [x] + Join(rest, c)
  {
    var r := [[x] + rest[0]] + rest[1..];
    if |rest| > 1 {
      assert r[1..] == rest[1..];
    }
  }

  function DropTrailingEmpty(parts: seq<string>): (r: seq<string>)
    ensures |r| <= |parts| && r == parts[..|r|]
    ensures forall i :: |r| <= i < |parts| ==> parts[i] == ""
    ensures |r| > 0 ==> r[|r| - 1] != ""
  {
    if |parts| == 0 || parts[|parts| - 1] != "" then parts
    else DropTrailingEmpty(parts[..|parts| - 1])
  }

  /** `s.split(c)` for a one-character pattern: with no `c` in `s` the answer is `[s]` (so `""` gives
      `[""]`); otherwise trailing empty fields are dropped. */
  function Split(s: string, c: char): (r: seq<string>)
    ensures c !in s ==> r == [s]
    ensures |r| <= |SplitAll(s, c)| && r == SplitAll(s, c)[..|r|]
    ensures forall i :: 0 <= i < |r| ==> c !in r[i]
    ensures forall i, ch :: 0 <= i < |r| && ch in r[i] ==> ch in s
    ensures c in s && |r| > 0 ==> r[|r| - 1] != ""
  {
    if c !in s then [s] else DropTrailingEmpty(SplitAll(s, c))
  }

  /** A field free of the separator, followed by the separator, is the first field. */
  lemma {:induction false} SplitAllField(a: string, c: char, rest: string)
    requires c !in a
    ensures SplitAll(a + [c] + rest, c) == [a] + SplitAll(rest, c)
    decreases |a|
  {
    var s := a + [c] + rest;
    if |a| == 0 {
      assert s == [c] + rest;
      assert s[1..] == rest;
    } else {
      assert s[1..] == a[1..] + [c] + rest;
      SplitAllField(a[1..], c, rest);
      assert [a[0]] + a[1..] == a;
    }
  }

  /** Splitting what `Join` built gives the fields back, when none contains the separator. */
  lemma {:induction false} SplitAllJoin(parts: seq<string>, c: char)
    requires |parts| >= 1
    requires forall i :: 0 <= i < |parts| ==> c !in parts[i]
    ensures SplitAll(Join(parts, c), c) == parts
    decreases |parts|
  {
    if |parts| > 1 {
      SplitAllJoin(parts[1..], c);
      SplitAllField(parts[0], c, Join(parts[1..], c));
      assert parts == [parts[0]] + parts[1..];
    }
  }

  /** `split` undoes `Join` for at least two separator-free fields, the last one non-empty. */
  lemma SplitJoin(parts: seq<string>, c: char)
    requires |parts| >= 2 && parts[|parts| - 1] != ""
    requires forall i :: 0 <= i < |parts| ==> c !in parts[i]
    ensures Split(Join(parts, c), c) == parts
  {
    SplitAllJoin(parts, c);
    assert Join(parts, c) == parts[0] + [c] + Join(parts[1..], c);
    assert c in Join(parts, c) by {
      assert Join(parts, c)[|parts[0]|] == c;
    }
  }

  /* ---------------------------------------------------------------- trimming and mapping */

  /** Characters removed by `String.trim`: every code point up to U+0020. */
  predicate IsBlank(c: char) {
    c <= ' '
  }

  function TrimStart(s: string): (r: string)
    ensures |r| <= |s| && r == s[|s| - |r|..]
    ensures forall k :: 0 <= k < |s| - |r| ==> IsBlank(s[k])
    ensures |r| > 0 ==> !IsBlank(r[0])
  {
    if |s| > 0 && IsBlank(s[0]) then TrimStart(s[1..]) else s
  }

  function TrimEnd(s: string): (r: string)
    ensures |r| <= |s| && r == s[..|r|]
    ensures forall k :: |r| <= k < |s| ==> IsBlank(s[k])
    ensures |r| > 0 ==> !IsBlank(r[|r| - 1])
  {
    if |s| > 0 && IsBlank(s[|s| - 1]) then TrimEnd(s[..|s| - 1]) else s
  }

  /** `s.trim()`: the longest middle part of `s` that neither starts nor ends with a blank. */
  function Trim(s: string): (r: string)
    ensures |r| > 0 ==> !IsBlank(r[0]) && !IsBlank(r[|r| - 1])
    ensures forall i :: 0 <= i < |r| ==> r[i] in s
    ensures (forall i :: 0 <= i < |s| ==> !IsBlank(s[i])) ==> r == s
  {
    TrimEnd(TrimStart(s))
  }

  /** Blanks in front of a word without blanks are all that `trim` removes. */
  lemma {:induction false} TrimBlankPrefix(blanks: string, s: string)
    requires forall i :: 0 <= i < |blanks| ==> IsBlank(blanks[i])
    requires |s| > 0 && forall i :: 0 <= i < |s| ==> !IsBlank(s[i])
    ensures Trim(blanks + s) == s
    decreases |blanks|
  {
    if |blanks| > 0 {
      assert (blanks + s)[1..] == blanks[1..] + s;
      TrimBlankPrefix(blanks[1..], s);
    } else {
      assert blanks + s == s;
    }
  }

  /** `s.replaceAll("[^...]", "")` for a character class: keeps exactly the characters in `keep`. */
  function Filter(s: string, keep: set<char>): (r: string)
    ensures forall i :: 0 <= i < |r| ==> r[i] in keep && r[i] in s
    ensures forall i :: 0 <= i < |s| && s[i] in keep ==> s[i] in r
  {
    if |s| == 0 then ""
    else if s[0] in keep then [s[0]] + Filter(s[1..], keep)
    else Filter(s[1..], keep)
  }

  /** `s.toLowerCase()` on ASCII letters. */
  function ToLowerAscii(s: string): (r: string)
    ensures |r| == |s|
    ensures forall i :: 0 <= i < |s| ==> r[i] == (if 'A' <= s[i] <= 'Z' then (s[i] as int + 32) as char else s[i])
  {
    if |s| == 0 then ""
    else [if 'A' <= s[0] <= 'Z' then (s[0] as int + 32) as char else s[0]] + ToLowerAscii(s[1..])
  }

  /** `s.replace(target, replacement)`: every non-overlapping occurrence of `target`, scanning from the left. */
  function Replace(s: string, target: string, replacement: string): string
    requires |target| > 0
    decreases |s|
  {
    if |s| < |target| then s
    else if s[..|target|] == target then replacement + Replace(s[|target|..], target, replacement)
    else [s[0]] + Replace(s[1..], target, replacement)
  }

  /** Replacing a target that does not occur changes nothing. */
  lemma {:induction false} ReplaceAbsent(s: string, target: string, replacement: string)
    requires |target| > 0
    requires forall k :: !OccursAt(s, target, k)
    ensures Replace(s, target, replacement) == s
    decreases |s|
  {
    if |s| >= |target| {
      assert !OccursAt(s, target, 0);
      forall k
        ensures !OccursAt(s[1..], target, k)
      {
        if OccursAt(s[1..], target, k) {
          assert s[1..][k..k + |target|] == s[k + 1..k + 1 + |target|];
          assert OccursAt(s, target, k + 1);
        }
      }
      ReplaceAbsent(s[1..], target, replacement);
      assert s == [s[0]] + s[1..];
    }
  }

  /** A head in which the target does not occur is copied, and the target right after it is
      replaced, provided the target's first character does not recur in it (so no occurrence can
      start inside the head and run into the target). */
  lemma {:induction false} ReplaceAfterFreeHead(head: string, target: string, replacement: string, rest: string)
    requires |target| > 0
    requires forall j :: 0 < j < |target| ==> target[j] != target[0]
    requires forall k :: !OccursAt(head, target, k)
    ensures Replace(head + target + rest, target, replacement) == head + replacement + Replace(rest, target, replacement)
    decreases |head|
  {
    var s := head + target + rest;
    if |head| == 0 {
      assert s == target + rest;
      assert (target + rest)[..|target|] == target && (target + rest)[|target|..] == rest;
    } else {
      var tail := head[1..] + target + rest;
      assert s == [head[0]] + tail;
      assert s[1..] == tail;
      assert s[..|target|] != target by {
        if |head| >= |target| {
          assert s[..|target|] == head[..|target|];
          assert !OccursAt(head, target, 0);
        } else {
          assert s[..|target|][|head|] == target[0] != target[|head|];
        }
      }
      forall k
        ensures !OccursAt(head[1..], target, k)
      {
        if OccursAt(head[1..], target, k) {
          assert head[1..][k..k + |target|] == head[k + 1..k + 1 + |target|];
          assert OccursAt(head, target, k + 1);
        }
      }
      ReplaceAfterFreeHead(head[1..], target, replacement, rest);
      assert head == [head[0]] + head[1..];
    }
  }

  /** Replacing a target by itself changes nothing. */
  lemma {:induction false} ReplaceBySelf(s: string, target: string)
    requires |target| > 0
    ensures Replace(s, target, target) == s
    decreases |s|
  {
    if |s| >= |target| {
      if s[..|target|] == target {
        ReplaceBySelf(s[|target|..], target);
        assert s == s[..|target|] + s[|target|..];
      } else {
        ReplaceBySelf(s[1..], target);
        assert s == [s[0]] + s[1..];
      }
    }
  }

  /** A one-character replacement acts on each character independently. */
  lemma {:induction false} ReplaceCharConcat(a: string, b: string, c: char, replacement: string)
    ensures Replace(a + b, [c], replacement) == Replace(a, [c], replacement) + Replace(b, [c], replacement)
    decreases |a|
  {
    if |a| > 0 {
      assert (a + b)[1..] == a[1..] + b;
      assert (a + b)[..1] == [a[0]] && a[..1] == [a[0]];
      ReplaceCharConcat(a[1..], b, c, replacement);
    } else {
      assert a + b == b;
    }
  }

  /** After replacing a character by text free of it, the character no longer occurs. */
  lemma {:induction false} ReplaceCharRemoves(s: string, c: char, replacement: string)
    requires c !in replacement
    ensures c !in Replace(s, [c], replacement)
    decreases |s|
  {
    if |s| > 0 {
      assert s == [s[0]] + s[1..];
      ReplaceCharConcat([s[0]], s[1..], c, replacement);
      ReplaceCharSingle(s[0], c, replacement);
      ReplaceCharRemoves(s[1..], c, replacement);
    }
  }

  /** The effect of a one-character replacement on a single character. */
  lemma ReplaceCharSingle(x: char, c: char, replacement: string)
    ensures Replace([x], [c], replacement) == if x == c then replacement else [x]
  {
    assert [x][1..] == [];
    assert [x][..1] == [x];
  }

  /* ---------------------------------------------------------------- decimal numbers */

  predicate IsDigit(c: char) {
    '0' <= c <= '9'
  }

  predicate AllDigits(s: string) {
    forall i :: 0 <= i < |s| ==> IsDigit(s[i])
  }

  function DigitValue(c: char): nat
    requires IsDigit(c)
  {
    c as int - '0' as int
  }

  function DigitChar(d: nat): (c: char)
    requires d < 10
    ensures IsDigit(c) && DigitValue(c) == d
  {
    ('0' as int + d) as char
  }

  /** The value of a string of decimal digits, most significant first. */
  function DigitsValue(s: string): nat
    requires AllDigits(s)
  {
    if |s| == 0 then 0 else DigitsValue(s[..|s| - 1]) * 10 + DigitValue(s[|s| - 1])
  }

  /** Radix-10 parsing as `Integer.parseInt`/`Long.parseLong` do it: an optional sign, at least one
      digit, and a value inside `[lo, hi]`; anything else is a `NumberFormatException` (`None`). */
  function ParseDecimal(s: string, lo: int, hi: int): (r: Option<int>)
    ensures r.Some? ==> lo <= r.value <= hi
    ensures |s| == 0 ==> r.None?
  {
    if |s| == 0 then None
    else
      var signed := s[0] == '-' || s[0] == '+';
      var digits := if signed then s[1..] else s;
      if |digits| == 0 || !AllDigits(digits) then None
      else
        var magnitude: int := DigitsValue(digits);
        var v := if s[0] == '-' then -magnitude else magnitude;
        if lo <= v <= hi then Some(v) else None
  }

  const IntMin := -0x8000_0000
  const IntMax := 0x7FFF_FFFF
  const LongMin := -0x8000_0000_0000_0000
  const LongMax := 0x7FFF_FFFF_FFFF_FFFF

  /** `Integer.parseInt(s)`. */
  function ParseInt(s: string): (r: Option<int>)
    ensures r.Some? ==> IntMin <= r.value <= IntMax
  {
    ParseDecimal(s, IntMin, IntMax)
  }

  /** `Long.parseLong(s)`. */
  function ParseLong(s: string): (r: Option<int>)
    ensures r.Some? ==> LongMin <= r.value <= LongMax
  {
    ParseDecimal(s, LongMin, LongMax)
  }

  /** The shortest decimal spelling of `n` (`Integer.toString` for non-negative values). */
  function Decimal(n: nat): (s: string)
    ensures |s| > 0 && AllDigits(s) && DigitsValue(s) == n
    ensures n > 0 ==> s[0] != '0'
  {
    if n < 10 then [DigitChar(n)]
    else
      var s := Decimal(n / 10) + [DigitChar(n % 10)];
      assert s[..|s| - 1] == Decimal(n / 10);
      s
  }

  /** `n` written with exactly `width` digits, zero-padded on the left (`%0Nd`, `HH`, `yyyy`). */
  function Pad(n: nat, width: nat): (s: string)
    requires n < Pow10(width)
    ensures |s| == width && AllDigits(s) && DigitsValue(s) == n
  {
    if width == 0 then ""
    else
      var s := Pad(n / 10, width - 1) + [DigitChar(n % 10)];
      assert s[..|s| - 1] == Pad(n / 10, width - 1);
      s
  }

  function Pow10(k: nat): (p: nat)
    ensures p >= 1
  {
    if k == 0 then 1 else 10 * Pow10(k - 1)
  }

  /** Parsing a plain decimal spelling gives back its value. */
  lemma ParseDecimalOfDigits(s: string, lo: int, hi: int)
    requires |s| > 0 && AllDigits(s) && lo <= DigitsValue(s) <= hi
    ensures ParseDecimal(s, lo, hi) == Some(DigitsValue(s))
  {
  }

  /** Parsing a minus sign before a plain decimal spelling gives back the negated value. */
  lemma ParseDecimalOfNegated(d: string, lo: int, hi: int)
    requires |d| > 0 && AllDigits(d) && lo <= -(DigitsValue(d) as int) <= hi
    ensures ParseDecimal("-" + d, lo, hi) == Some(-(DigitsValue(d) as int))
  {
    assert ("-" + d)[1..] == d;
  }

  /* ---------------------------------------------------------------- fixed-width arithmetic */

  /** Java's `int`. */
  newtype Int32 = x: int | -0x8000_0000 <= x <= 0x7FFF_FFFF

  /** Java's `long`. */
  type Long = x: int | -0x8000_0000_0000_0000 <= x <= 0x7FFF_FFFF_FFFF_FFFF

  /** The two's-complement value of the low 32 bits of `x`: Java `int` arithmetic. */
  function Wrap32(x: int): (r: int)
    ensures IntMin <= r <= IntMax
    ensures (x - r) % 0x1_0000_0000 == 0
    ensures IntMin <= x <= IntMax ==> r == x
  {
    if IntMin <= x <= IntMax then x else (x - IntMin) % 0x1_0000_0000 + IntMin
  }

  /** The two's-complement value of the low 64 bits of `x`: Java `long` arithmetic. */
  function Wrap64(x: int): (r: int)
    ensures LongMin <= r <= LongMax
    ensures (x - r) % 0x1_0000_0000_0000_0000 == 0
    ensures LongMin <= x <= LongMax ==> r == x
  {
    if LongMin <= x <= LongMax then x else (x - LongMin) % 0x1_0000_0000_0000_0000 + LongMin
  }

  /* ---------------------------------------------------------------- ordering */

  /** `a.compareTo(b) < 0`: the first differing character decides, and a proper prefix comes first. */
  predicate LexLess(a: string, b: string)
    decreases |a|
  {
    if |a| == 0 then |b| > 0
    else if |b| == 0 then false
    else if a[0] != b[0] then a[0] < b[0]
    else LexLess(a[1..], b[1..])
  }

  lemma {:induction false} LexLessIrreflexive(a: string)
    ensures !LexLess(a, a)
    decreases |a|
  {
    if |a| > 0 {
      LexLessIrreflexive(a[1..]);
    }
  }

  lemma {:induction false} LexLessTransitive(a: string, b: string, c: string)
    requires LexLess(a, b) && LexLess(b, c)
    ensures LexLess(a, c)
    decreases |a|
  {
    if |a| > 0 && a[0] == b[0] && b[0] == c[0] {
      LexLessTransitive(a[1..], b[1..], c[1..]);
    }
  }

  lemma {:induction false} LexLessTotal(a: string, b: string)
    ensures a == b || LexLess(a, b) || LexLess(b, a)
    decreases |a|
  {
    if |a| > 0 && |b| > 0 && a[0] == b[0] {
      LexLessTotal(a[1..], b[1..]);
      if a[1..] == b[1..] {
        assert a == [a[0]] + a[1..] && b == [b[0]] + b[1..];
      }
    }
  }

  lemma {:induction false} LexLessAsymmetric(a: string, b: string)
    requires LexLess(a, b)
    ensures !LexLess(b, a)
    decreases |a|
  {
    if |a| > 0 && a[0] == b[0] {
      LexLessAsymmetric(a[1..], b[1..]);
    }
  }

  /** When the first parts have equal length, the order of two concatenations is decided by the first
      parts, and by the second parts only on a tie. */
  lemma {:induction false} LexLessConcat(a1: string, a2: string, b1: string, b2: string)
    requires |a1| == |b1|
    ensures LexLess(a1 + a2, b1 + b2) <==> LexLess(a1, b1) || (a1 == b1 && LexLess(a2, b2))
    decreases |a1|
  {
    if |a1| == 0 {
      assert a1 + a2 == a2 && b1 + b2 == b2;
    } else {
      assert (a1 + a2)[0] == a1[0] && (b1 + b2)[0] == b1[0];
      assert (a1 + a2)[1..] == a1[1..] + a2 && (b1 + b2)[1..] == b1[1..] + b2;
      LexLessConcat(a1[1..], a2, b1[1..], b2);
      if a1[0] == b1[0] {
        assert a1 == b1 <==> a1[1..] == b1[1..] by {
          assert a1 == [a1[0]] + a1[1..] && b1 == [b1[0]] + b1[1..];
        }
      } else {
        assert a1 != b1;
      }
    }
  }

  /** Among digit strings of one length, the lexicographic order is the numeric order. */
  lemma {:induction false} LexLessDigits(a: string, b: string)
    requires |a| == |b| && AllDigits(a) && AllDigits(b)
    ensures LexLess(a, b) <==> DigitsValue(a) < DigitsValue(b)
    decreases |a|
  {
    if |a| > 0 {
      var n := |a| - 1;
      LexLessConcat(a[..n], [a[n]], b[..n], [b[n]]);
      assert a == a[..n] + [a[n]] && b == b[..n] + [b[n]];
      LexLessDigits(a[..n], b[..n]);
      DigitsValueInjective(a[..n], b[..n]);
      assert LexLess([a[n]], [b[n]]) <==> a[n] < b[n] by {
        assert [a[n]][1..] == [] && [b[n]][1..] == [];
      }
    }
  }

  lemma {:induction false} DigitsValueInjective(a: string, b: string)
    requires |a| == |b| && AllDigits(a) && AllDigits(b)
    ensures DigitsValue(a) == DigitsValue(b) <==> a == b
    decreases |a|
  {
    if |a| > 0 {
      var n := |a| - 1;
      DigitsValueInjective(a[..n], b[..n]);
      if DigitsValue(a) == DigitsValue(b) {
        assert a[n] == b[n];
        assert a == a[..n] + [a[n]] && b == b[..n] + [b[n]];
      }
    }
  }
}
