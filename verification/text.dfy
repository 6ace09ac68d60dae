/** The Python `str` operations the journal code relies on: `strip()`,
    `lower()`, `startswith`, `replace(pat, "")`, `split('\n')`, `join`, and
    the `int()` / `str()` conversions of entry ids. */
module Text {
  import opened Wrappers

  /** The characters Python's `str.isspace()` accepts, which `strip()`
      removes: tab through carriage return, the four information
      separators, space, next-line, no-break space, the Ogham space mark,
      the eleven spaces U+2000 to U+200A, the line and paragraph
      separators, the narrow no-break and medium mathematical spaces, and
      the ideographic space. */
  predicate IsSpace(c: char) {
    || '\t' <= c <= '\r'
    || '\U{1c}' <= c <= ' '
    || c == '\U{85}' || c == '\U{a0}' || c == '\U{1680}'
    || '\U{2000}' <= c <= '\U{200a}'
    || c == '\U{2028}' || c == '\U{2029}' || c == '\U{202f}' || c == '\U{205f}' || c == '\U{3000}'
  }

  /** No printable ASCII character is whitespace. */
  lemma VisibleNotSpace(c: char)
    requires '!' <= c <= '~'
    ensures !IsSpace(c)
  {
  }

  ghost predicate AllSpace(s: string) {
    forall i :: 0 <= i < |s| ==> IsSpace(s[i])
  }

  /** `s` with its leading whitespace removed. */
  function StripStart(s: string): (r: string)
    ensures |r| <= |s| && r == s[|s| - |r|..]
    ensures AllSpace(s[..|s| - |r|])
    ensures |r| > 0 ==> !IsSpace(r[0])
  {
    if |s| > 0 && IsSpace(s[0]) then
      var r := StripStart(s[1..]);
      assert s[1..][|s[1..]| - |r|..] == s[|s| - |r|..];
      AllSpaceFront(s, |s| - |r|);
      r
    else s
  }

  /** `s` with its trailing whitespace removed. */
  function StripEnd(s: string): (r: string)
    ensures |r| <= |s| && r == s[..|r|]
    ensures AllSpace(s[|r|..])
    ensures |r| > 0 ==> !IsSpace(r[|r| - 1])
  {
    if |s| > 0 && IsSpace(s[|s| - 1]) then
      var r := StripEnd(s[..|s| - 1]);
      assert s[..|s| - 1][..|r|] == s[..|r|];
      AllSpaceBack(s, |r|);
      r
    else s
  }

  /** A whitespace head before a whitespace run is a longer run. */
  lemma AllSpaceFront(s: string, k: int)
    requires 0 < k <= |s| && IsSpace(s[0]) && AllSpace(s[1..][..k - 1])
    ensures AllSpace(s[..k])
  {
    var cut, rest := s[..k], s[1..][..k - 1];
    forall i | 0 <= i < |cut| ensures IsSpace(cut[i]) {
      if i > 0 {
        assert cut[i] == rest[i - 1];
      }
    }
  }

  /** A whitespace run before a whitespace last character is a longer run. */
  lemma AllSpaceBack(s: string, k: int)
    requires 0 <= k < |s| && IsSpace(s[|s| - 1]) && AllSpace(s[..|s| - 1][k..])
    ensures AllSpace(s[k..])
  {
    var cut, rest := s[k..], s[..|s| - 1][k..];
    forall i | 0 <= i < |cut| ensures IsSpace(cut[i]) {
      if i < |rest| {
        assert cut[i] == rest[i];
      }
    }
  }

  /** Python's `s.strip()`: `s` without its leading and trailing runs of
      whitespace. */
  function Strip(s: string): (r: string)
    ensures |r| <= |s|
    ensures r == "" <==> AllSpace(s)
  {
    var t := StripStart(s);
    StripEmpty(s, t);
    StripEnd(t)
  }

  /** A stripped string neither starts nor ends with whitespace. */
  lemma StripEnds(s: string)
    ensures |Strip(s)| > 0 ==> !IsSpace(Strip(s)[0]) && !IsSpace(Strip(s)[|Strip(s)| - 1])
  {
    var t := StripStart(s);
    var r := StripEnd(t);
    assert Strip(s) == r;
    if |r| > 0 {
      assert !IsSpace(r[0]) by {
        assert r[0] == t[..|r|][0] == t[0];
      }
    }
  }

  /** Neither end of `s` is whitespace. */
  ghost predicate Trimmed(s: string) {
    |s| > 0 ==> !IsSpace(s[0]) && !IsSpace(s[|s| - 1])
  }

  lemma StripEmpty(s: string, t: string)
    requires t == StripStart(s)
    ensures StripEnd(t) == "" <==> AllSpace(s)
  {
    if StripEnd(t) == "" {
      assert s == s[..|s| - |t|] + t;
    }
  }

  /** `r` sits at offset `i` of `s` with only whitespace around it. */
  ghost predicate SurroundedBySpace(r: string, s: string, i: int) {
    0 <= i <= |s| - |r| && r == s[i..i + |r|] && AllSpace(s[..i]) && AllSpace(s[i + |r|..])
  }

  /** `strip()` removes whitespace and nothing else: its result is a slice
      of its argument with only whitespace on either side. */
  lemma StripIsSlice(s: string)
    ensures exists i :: SurroundedBySpace(Strip(s), s, i)
  {
    var t := StripStart(s);
    var r := StripEnd(t);
    var i := |s| - |t|;
    assert s[i + |r|..] == t[|r|..];
    assert r == Strip(s);
    assert SurroundedBySpace(r, s, i);
  }

  /** A string with no surrounding whitespace is its own strip. */
  lemma StripNoop(s: string)
    requires |s| > 0 ==> !IsSpace(s[0]) && !IsSpace(s[|s| - 1])
    ensures Strip(s) == s
  {
  }

  /** One leading whitespace character before a word is stripped away. */
  lemma StripLeadingSpace(c: char, w: string)
    requires IsSpace(c) && |w| > 0 && !IsSpace(w[0]) && !IsSpace(w[|w| - 1])
    ensures Strip([c] + w) == w
  {
    assert ([c] + w)[1..] == w;
    assert StripStart([c] + w) == StripStart(w) == w;
    StripNoop(w);
  }

  /** Stripping is idempotent. */
  lemma StripIdempotent(s: string)
    ensures Strip(Strip(s)) == Strip(s)
  {
    var t := Strip(s);
    StripEnds(s);
    assert |t| > 0 ==> !IsSpace(t[0]) && !IsSpace(t[|t| - 1]);
    StripNoop(t);
  }

  /** Python's `str.lower()` on the ASCII letters. */
  function Lower(s: string): (r: string)
    ensures |r| == |s|
    ensures forall i :: 0 <= i < |s| ==> !('A' <= r[i] <= 'Z')
    ensures forall i :: 0 <= i < |s| && !('A' <= s[i] <= 'Z') ==> r[i] == s[i]
    ensures forall i :: 0 <= i < |s| && 'A' <= s[i] <= 'Z' ==> r[i] == (s[i] - 'A' + 'a') as char
  {
    seq(|s|, i requires 0 <= i < |s| => if 'A' <= s[i] <= 'Z' then (s[i] - 'A' + 'a') as char else s[i])
  }

  /** Python's `s.startswith(p)`. */
  predicate StartsWith(s: string, p: string) {
    |p| <= |s| && s[..|p|] == p
  }

  /** `pat` occurs somewhere in `s`. */
  ghost predicate Occurs(pat: string, s: string) {
    exists i :: OccursAt(pat, s, i)
  }

  ghost predicate OccursAt(pat: string, s: string, i: int) {
    0 <= i <= |s| - |pat| && s[i..i + |pat|] == pat
  }

  lemma OccursStep(pat: string, s: string)
    requires |s| >= |pat| > 0
    ensures Occurs(pat, s) <==> StartsWith(s, pat) || Occurs(pat, s[1..])
  {
    assert StartsWith(s, pat) <==> OccursAt(pat, s, 0) by {
      assert s[..|pat|] == s[0..|pat|];
    }
    if Occurs(pat, s) && !StartsWith(s, pat) {
      var i :| OccursAt(pat, s, i);
      assert s[1..][i - 1..i - 1 + |pat|] == s[i..i + |pat|];
      assert OccursAt(pat, s[1..], i - 1);
    }
    if Occurs(pat, s[1..]) {
      var i :| OccursAt(pat, s[1..], i);
      assert s[i + 1..i + 1 + |pat|] == s[1..][i..i + |pat|];
      assert OccursAt(pat, s, i + 1);
    }
    if StartsWith(s, pat) {
      assert OccursAt(pat, s, 0);
    }
  }

  /** Python's `s.replace(pat, "")`: every leftmost non-overlapping
      occurrence of `pat` is deleted. The result is shorter exactly when
      `pat` occurs in `s`. */
  function RemoveAll(s: string, pat: string): (r: string)
    requires |pat| > 0
    ensures |r| <= |s|
    ensures |r| == |s| <==> !Occurs(pat, s)
    decreases |s|
  {
    if |s| < |pat| then s
    else
      OccursStep(pat, s);
      if s[..|pat|] == pat then RemoveAll(s[|pat|..], pat)
      else [s[0]] + RemoveAll(s[1..], pat)
  }

  /** A string with no occurrence of the pattern is left alone. */
  lemma {:induction false} RemoveAllAbsent(s: string, pat: string)
    requires |pat| > 0 && !Occurs(pat, s)
    ensures RemoveAll(s, pat) == s
    decreases |s|
  {
    if |s| >= |pat| {
      OccursStep(pat, s);
      RemoveAllAbsent(s[1..], pat);
    }
  }

  /** A pattern whose first character `s` lacks does not occur in `s`. */
  lemma AbsentHead(pat: string, s: string)
    requires |pat| > 0 && forall i :: 0 <= i < |s| ==> s[i] != pat[0]
    ensures !Occurs(pat, s)
  {
    forall i | 0 <= i <= |s| - |pat| ensures !OccursAt(pat, s, i) {
      assert s[i..i + |pat|][0] == s[i];
    }
  }

  /** Removing the pattern from the pattern followed by text that does not
      contain it gives back that text. */
  lemma RemoveAllLeading(pat: string, t: string)
    requires |pat| > 0 && !Occurs(pat, t)
    ensures RemoveAll(pat + t, pat) == t
  {
    assert (pat + t)[..|pat|] == pat && (pat + t)[|pat|..] == t;
    RemoveAllAbsent(t, pat);
  }

  /** Where the pattern does not start at the front, the first character
      is kept and the scan moves on by one. */
  lemma RemoveAllKeep(s: string, pat: string)
    requires |pat| > 0 && |s| >= |pat| && !OccursAt(pat, s, 0)
    ensures RemoveAll(s, pat) == [s[0]] + RemoveAll(s[1..], pat)
  {
    assert s[..|pat|] == s[0..|pat|];
  }

  /** No occurrence starting inside `a` means none starting inside its
      tail either. */
  lemma NoOccurrenceShift(a: string, t: string, pat: string)
    requires |a| > 0
    requires forall i :: 0 <= i < |a| ==> !OccursAt(pat, a + t, i)
    ensures forall i :: 0 <= i < |a| - 1 ==> !OccursAt(pat, a[1..] + t, i)
  {
    var s := a + t;
    assert s[1..] == a[1..] + t;
    forall i | 0 <= i < |a| - 1
      ensures !OccursAt(pat, a[1..] + t, i)
    {
      if i <= |a[1..] + t| - |pat| {
        assert s[1..][i..i + |pat|] == s[i + 1..i + 1 + |pat|];
        assert !OccursAt(pat, s, i + 1);
      }
    }
  }

  /** Text in which no occurrence of the pattern starts is copied through
      unchanged, and the scan resumes after it. */
  lemma {:induction false} RemoveAllSkip(a: string, t: string, pat: string)
    requires |pat| > 0
    requires forall i :: 0 <= i < |a| ==> !OccursAt(pat, a + t, i)
    ensures RemoveAll(a + t, pat) == a + RemoveAll(t, pat)
    decreases |a|
  {
    if |a + t| < |pat| {
      assert RemoveAll(a + t, pat) == a + t && RemoveAll(t, pat) == t;
    } else if |a| > 0 {
      NoOccurrenceShift(a, t, pat);
      RemoveAllSkip(a[1..], t, pat);
      RemoveAllKeep(a + t, pat);
      HeadTail(a, t, RemoveAll(t, pat));
    } else {
      assert a + t == t;
    }
  }

  /** Splitting off the first character of `a` commutes with appending. */
  lemma HeadTail(a: string, t: string, u: string)
    requires |a| > 0
    ensures (a + t)[0] == a[0] && (a + t)[1..] == a[1..] + t
    ensures [a[0]] + (a[1..] + u) == a + u
  {
    assert a == [a[0]] + a[1..];
  }

  /** Removing the pattern throughout: an occurrence after pattern-free
      text `a` is dropped and the scan goes on with the rest, so every
      occurrence the scan meets is deleted, wherever it sits. */
  lemma RemoveAllSplit(a: string, b: string, pat: string)
    requires |pat| > 0
    requires forall i :: 0 <= i < |a| ==> !OccursAt(pat, a + pat + b, i)
    ensures RemoveAll(a + pat + b, pat) == a + RemoveAll(b, pat)
  {
    assert a + pat + b == a + (pat + b);
    RemoveAllSkip(a, pat + b, pat);
    assert (pat + b)[..|pat|] == pat && (pat + b)[|pat|..] == b;
  }

  /** Occurrences are removed throughout the string, not only at its
      start: removing `- ` from `- a - b` leaves `a b`. */
  lemma RemoveAllThroughout()
    ensures RemoveAll("- a - b", "- ") == "a b"
  {
    assert RemoveAll("- b", "- ") == "b" by {
      assert "- b"[..2] == "- " && "- b"[2..] == "b";
    }
    assert RemoveAll(" - b", "- ") == " b" by {
      assert " - b"[..2] != "- " && " - b"[1..] == "- b";
    }
    assert RemoveAll("a - b", "- ") == "a b" by {
      assert "a - b"[..2] != "- " && "a - b"[1..] == " - b";
    }
    assert "- a - b"[..2] == "- " && "- a - b"[2..] == "a - b";
  }

  /** `s` split at every `sep` character, like Python's `s.split(sep)`. */
  function Split(s: string, sep: char): (r: seq<string>)
    ensures |r| >= 1
    ensures forall i :: 0 <= i < |r| ==> sep !in r[i]
    ensures Join(r, [sep]) == s
  {
    if |s| == 0 then [""]
    else
      var rest := Split(s[1..], sep);
      assert s == [s[0]] + s[1..];
      if s[0] == sep then
        var r := [""] + rest;
        assert r[1..] == rest;
        r
      else
        var r := [[s[0]] + rest[0]] + rest[1..];
        assert r[1..] == rest[1..];
        assert |rest| > 1 ==> Join(rest, [sep]) == rest[0] + [sep] + Join(rest[1..], [sep]);
        r
  }

  /** The parts concatenated with `sep` between neighbours, like Python's
      `sep.join(parts)`. */
  function Join(parts: seq<string>, sep: string): (r: string)
    ensures |parts| == 0 ==> r == ""
    ensures |parts| > 0 ==> StartsWith(r, parts[0])
  {
    if |parts| == 0 then ""
    else if |parts| == 1 then parts[0]
    else parts[0] + sep + Join(parts[1..], sep)
  }

  /** Every part occurs in the join. */
  lemma {:induction false} JoinContains(parts: seq<string>, sep: string, i: nat)
    requires i < |parts|
    ensures Occurs(parts[i], Join(parts, sep))
    decreases i
  {
    var s := Join(parts, sep);
    if i == 0 {
      assert OccursAt(parts[0], s, 0);
    } else {
      JoinContains(parts[1..], sep, i - 1);
      var rest := Join(parts[1..], sep);
      var k :| OccursAt(parts[i], rest, k);
      var off := |parts[0]| + |sep|;
      assert s == parts[0] + sep + rest;
      assert s[off + k..off + k + |parts[i]|] == rest[k..k + |parts[i]|];
      assert OccursAt(parts[i], s, off + k);
    }
  }

  /** Splitting inverts joining when no part contains the separator. */
  lemma {:induction false} SplitJoin(parts: seq<string>, sep: char)
    requires |parts| >= 1
    requires forall i :: 0 <= i < |parts| ==> sep !in parts[i]
    ensures Split(Join(parts, [sep]), sep) == parts
    decreases |parts|
  {
    var s := Join(parts, [sep]);
    var r := Split(s, sep);
    SplitUnique(r, parts, sep);
  }

  /** The first part of a join, followed by the separator when more parts
      follow. */
  lemma JoinHead(parts: seq<string>, sep: char)
    requires |parts| >= 1 && sep !in parts[0]
    ensures |parts[0]| <= |Join(parts, [sep])|
    ensures forall k :: 0 <= k < |parts[0]| ==> Join(parts, [sep])[k] == parts[0][k] != sep
    ensures |parts| == 1 ==> |Join(parts, [sep])| == |parts[0]|
    ensures |parts| > 1 ==> |Join(parts, [sep])| > |parts[0]| && Join(parts, [sep])[|parts[0]|] == sep
    ensures |parts| > 1 ==> Join(parts, [sep])[|parts[0]| + 1..] == Join(parts[1..], [sep])
  {
    if |parts| > 1 {
      var s := Join(parts, [sep]);
      assert s == parts[0] + [sep] + Join(parts[1..], [sep]);
    }
  }

  /** Two separator-free part lists with the same join are equal. */
  lemma {:induction false} SplitUnique(a: seq<string>, b: seq<string>, sep: char)
    requires |a| >= 1 && |b| >= 1
    requires forall i :: 0 <= i < |a| ==> sep !in a[i]
    requires forall i :: 0 <= i < |b| ==> sep !in b[i]
    requires Join(a, [sep]) == Join(b, [sep])
    ensures a == b
    decreases |a| + |b|
  {
    JoinHead(a, sep);
    JoinHead(b, sep);
    assert |a[0]| == |b[0]|;
    assert a[0] == b[0];
    if |a| > 1 {
      assert |b| > 1;
      SplitUnique(a[1..], b[1..], sep);
      assert a == [a[0]] + a[1..];
      assert b == [b[0]] + b[1..];
    } else {
      assert |b| == 1;
    }
  }

  // Decimal integers, as `int(x)` reads them and `str(n)` writes them.

  predicate IsDigit(c: char) {
    '0' <= c <= '9'
  }

  predicate AllDigits(s: string) {
    forall i :: 0 <= i < |s| ==> IsDigit(s[i])
  }

  /** The value of a string of decimal digits. */
  function DigitsValue(ds: string): nat
    requires AllDigits(ds)
  {
    if |ds| == 0 then 0
    else DigitsValue(ds[..|ds| - 1]) * 10 + (ds[|ds| - 1] - '0') as nat
  }

  /** The decimal rendering of a natural number, without leading zeros. */
  function ShowNat(n: nat): (r: string)
    ensures |r| > 0 && AllDigits(r)
  {
    var d := ('0' as int + n % 10) as char;
    if n < 10 then [d] else ShowNat(n / 10) + [d]
  }

  /** The number of decimal digits of `n`, its sign not counted. */
  function DigitCount(n: int): nat {
    |ShowNat(if n < 0 then -n else n)|
  }

  /** CPython's default limit on decimal conversions
      (`sys.get_int_max_str_digits()`, from 3.11 on): `int()` rejects a
      string of more digits, and `str()` raises on an integer of more. */
  const MaxStrDigits := 4300

  /** The information separators U+001C to U+001F. `str.isspace()` counts
      them as whitespace, but `int()` skips only the other whitespace
      characters, so a string holding one of them never parses. */
  predicate IsSeparator(c: char) {
    '\U{1c}' <= c <= '\U{1f}'
  }

  predicate HasSeparator(s: string) {
    exists i :: 0 <= i < |s| && IsSeparator(s[i])
  }

  /** Python's `str(n)` on an integer. */
  function ShowInt(n: int): (r: string)
    ensures |r| > 0
  {
    if n < 0 then "-" + ShowNat(-n) else ShowNat(n)
  }

  /** Python's `int(s)` in base 10: surrounding whitespace, an optional sign
      and one to `MaxStrDigits` decimal digits; `None` where Python raises. */
  function ParseInt(s: string): (r: Option<int>)
    ensures AllSpace(s) ==> r == None
    ensures HasSeparator(s) ==> r == None
  {
    if HasSeparator(s) then None else ParseSigned(Strip(s))
  }

  /** `int()` on a string with no surrounding whitespace. */
  function ParseSigned(t: string): Option<int> {
    if |t| > 0 && (t[0] == '-' || t[0] == '+') then
      var ds := t[1..];
      if 0 < |ds| <= MaxStrDigits && AllDigits(ds) then
        Some(if t[0] == '-' then -(DigitsValue(ds) as int) else DigitsValue(ds))
      else None
    else if 0 < |t| <= MaxStrDigits && AllDigits(t) then Some(DigitsValue(t))
    else None
  }

  /** The shape `int()` accepts once whitespace is gone: the digits `ds`
      (one to `MaxStrDigits` ASCII digits), alone or after one `+` or `-`. */
  ghost predicate IntLiteral(t: string, ds: string) {
    && 0 < |ds| <= MaxStrDigits && AllDigits(ds)
    && (t == ds || (|t| > 0 && (t[0] == '+' || t[0] == '-') && t[1..] == ds))
  }

  /** `int(x)` accepts exactly the strings that hold no information
      separator and, once surrounding whitespace is stripped, are an
      optional sign followed by one to `MaxStrDigits` ASCII digits. */
  lemma ParseIntAccepts(x: string)
    ensures ParseInt(x).Some? <==> !HasSeparator(x) && exists ds :: IntLiteral(Strip(x), ds)
  {
    if !HasSeparator(x) {
      var t := Strip(x);
      assert ParseInt(x) == ParseSigned(t);
      SignedShape(t);
    }
  }

  /** An accepted string reads as the value of its digits, negated after
      a `-`. */
  lemma ParseIntValue(x: string, ds: string)
    requires !HasSeparator(x) && IntLiteral(Strip(x), ds)
    ensures ParseInt(x) == Some(if Strip(x)[0] == '-' then -(DigitsValue(ds) as int) else DigitsValue(ds))
  {
    var t := Strip(x);
    assert ParseInt(x) == ParseSigned(t);
    SignedValue(t, ds);
  }

  lemma SignedShape(t: string)
    ensures ParseSigned(t).Some? <==> exists ds :: IntLiteral(t, ds)
  {
    if exists ds :: IntLiteral(t, ds) {
      var ds :| IntLiteral(t, ds);
      if t == ds {
        assert IsDigit(t[0]);
      }
    }
    if ParseSigned(t).Some? {
      if t[0] == '-' || t[0] == '+' {
        assert IntLiteral(t, t[1..]);
      } else {
        assert IntLiteral(t, t);
      }
    }
  }

  lemma SignedValue(t: string, ds: string)
    requires IntLiteral(t, ds)
    ensures ParseSigned(t) == Some(if t[0] == '-' then -(DigitsValue(ds) as int) else DigitsValue(ds))
  {
    if t == ds {
      assert IsDigit(t[0]);
    }
  }

  /** `int()` rejects a single lower-case letter. */
  lemma ParseIntLetter(c: char)
    requires 'a' <= c <= 'z'
    ensures ParseInt([c]) == None
  {
    VisibleNotSpace(c);
    ParseIntPlain([c]);
    SignedLetter(c);
  }

  lemma SignedLetter(c: char)
    requires 'a' <= c <= 'z'
    ensures ParseSigned([c]) == None
  {
    assert !AllDigits([c]) by {
      assert !IsDigit([c][0]);
    }
  }

  /** With no separator and no surrounding whitespace, nothing is stripped
      and the sign and digits are read directly. */
  lemma ParseIntPlain(t: string)
    requires forall i :: 0 <= i < |t| ==> !IsSeparator(t[i])
    requires Trimmed(t)
    ensures ParseInt(t) == ParseSigned(t)
  {
    assert !HasSeparator(t);
    StripNoop(t);
  }

  lemma DigitNotSpace(c: char)
    requires IsDigit(c)
    ensures !IsSpace(c)
  {
  }

  lemma {:induction false} DigitsValueShowNat(n: nat)
    ensures DigitsValue(ShowNat(n)) == n
  {
    var r := ShowNat(n);
    assert r[..|r| - 1] == if n < 10 then "" else ShowNat(n / 10);
    if n >= 10 {
      DigitsValueShowNat(n / 10);
    }
  }

  /** `int(str(n)) == n`: parsing inverts rendering up to the digit limit,
      and rejects a longer rendering. */
  lemma ParseShowInt(n: int)
    ensures DigitCount(n) <= MaxStrDigits ==> ParseInt(ShowInt(n)) == Some(n)
    ensures DigitCount(n) > MaxStrDigits ==> ParseInt(ShowInt(n)) == None
  {
    var s := ShowInt(n);
    var m: nat := if n < 0 then -n else n;
    var ds := ShowNat(m);
    DigitNotSpace(ds[0]);
    DigitNotSpace(ds[|ds| - 1]);
    if n < 0 {
      assert s[1..] == ds && s[|s| - 1] == ds[|ds| - 1];
    } else {
      assert s == ds;
    }
    forall i | 0 <= i < |s| ensures !IsSeparator(s[i]) {
      if n >= 0 || i > 0 {
        assert IsDigit(s[i]);
      }
    }
    ParseIntPlain(s);
    if |ds| <= MaxStrDigits {
      DigitsValueShowNat(m);
      SignedValue(s, ds);
    }
  }
}
