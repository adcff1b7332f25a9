/**
 * The handful of Python string operations the pipeline relies on: `str.isspace`,
 * `str.strip`, `str.lower`, `str.title`, `in`, `str.split(sep)`, `str.split()` and the
 * code-point ordering of `<` on strings. Case mapping covers the ASCII letters only.
 */
module Text {
  import opened Wrappers

  /** Python's `str.isspace` for a single character. */
  predicate IsSpace(c: char) {
    ('\t' <= c <= '\r') || ('\U{1C}' <= c <= '\U{1F}') || c == ' ' || c == '\U{85}' || c == '\U{A0}'
    || c == '\U{1680}' || ('\U{2000}' <= c <= '\U{200A}') || c == '\U{2028}' || c == '\U{2029}'
    || c == '\U{202F}' || c == '\U{205F}' || c == '\U{3000}'
  }

  predicate IsDigit(c: char) { '0' <= c <= '9' }
  predicate IsUpper(c: char) { 'A' <= c <= 'Z' }
  predicate IsLower(c: char) { 'a' <= c <= 'z' }
  predicate IsCased(c: char) { IsUpper(c) || IsLower(c) }

  predicate AllDigits(s: string) { forall i :: 0 <= i < |s| ==> IsDigit(s[i]) }

  function LowerChar(c: char): char {
    if IsUpper(c) then (c as int + 32) as char else c
  }

  function UpperChar(c: char): char {
    if IsLower(c) then (c as int - 32) as char else c
  }

  /** `str.lower()`. */
  function Lower(s: string): string {
    seq(|s|, i requires 0 <= i < |s| => LowerChar(s[i]))
  }

  /** `str.lstrip()`: drops the leading whitespace and nothing else. */
  function TrimStart(s: string): (r: string)
    ensures |r| <= |s| && r == s[|s| - |r|..]
    ensures r == [] || !IsSpace(r[0])
    ensures forall i :: 0 <= i < |s| - |r| ==> IsSpace(s[i])
    decreases |s|
  {
    if s != [] && IsSpace(s[0]) then TrimStart(s[1..]) else s
  }

  /** `str.rstrip()`: drops the trailing whitespace and nothing else. */
  function TrimEnd(s: string): (r: string)
    ensures |r| <= |s| && r == s[..|r|]
    ensures r == [] || !IsSpace(r[|r| - 1])
    ensures forall i :: |r| <= i < |s| ==> IsSpace(s[i])
    decreases |s|
  {
    if s != [] && IsSpace(s[|s| - 1]) then TrimEnd(s[..|s| - 1]) else s
  }

  /** `str.strip()`. */
  function Strip(s: string): string {
    TrimEnd(TrimStart(s))
  }

  lemma StripWithoutSpaces(s: string)
    requires forall i :: 0 <= i < |s| ==> !IsSpace(s[i])
    ensures Strip(s) == s
  {
    assert TrimStart(s) == s;
  }

  /** `sub` occurs in `s` starting at index `i`. */
  predicate OccursAt(s: string, sub: string, i: int) {
    0 <= i && i + |sub| <= |s| && s[i..i + |sub|] == sub
  }

  /** The first index at or after `from` where `sub` occurs in `s` (`str.find`). */
  function FindFrom(s: string, sub: string, from: nat): (r: Option<nat>)
    ensures r.Some? ==> from <= r.value && OccursAt(s, sub, r.value)
    ensures r.Some? ==> forall j :: from <= j < r.value ==> !OccursAt(s, sub, j)
    ensures r.None? ==> forall j :: from <= j ==> !OccursAt(s, sub, j)
    decreases |s| - from
  {
    if from + |sub| > |s| then None
    else if s[from..from + |sub|] == sub then Some(from)
    else FindFrom(s, sub, from + 1)
  }

  /** Python's `sub in s`. */
  predicate Contains(s: string, sub: string) {
    FindFrom(s, sub, 0).Some?
  }

  lemma ContainsMeansOccurs(s: string, sub: string)
    ensures Contains(s, sub) <==> exists i :: OccursAt(s, sub, i)
  {
    if !Contains(s, sub) {
      forall i ensures !OccursAt(s, sub, i) {
        if i >= 0 {
          assert 0 <= i;
        }
      }
    }
  }

  lemma OccursInside(a: string, m: string, b: string)
    ensures OccursAt(a + m + b, m, |a|)
  {
    assert (a + m + b)[|a|..|a| + |m|] == m;
  }

  /** A string that contains `big` contains every piece of `big`. */
  lemma ContainsWithin(s: string, big: string, sub: string, off: nat)
    requires OccursAt(big, sub, off) && Contains(s, big)
    ensures Contains(s, sub)
  {
    ContainsMeansOccurs(s, big);
    var i :| OccursAt(s, big, i);
    forall k | 0 <= k < |sub| ensures s[i + off + k] == sub[k] {
      assert s[i + off + k] == s[i..i + |big|][off + k];
      assert sub[k] == big[off..off + |sub|][k];
    }
    assert s[i + off..i + off + |sub|] == sub;
    assert OccursAt(s, sub, i + off);
    ContainsMeansOccurs(s, sub);
  }

  /** Python's `s.split(sep)` for a non-empty separator. */
  function SplitOn(s: string, sep: string): (parts: seq<string>)
    requires sep != []
    ensures |parts| >= 1
    decreases |s|
  {
    match FindFrom(s, sep, 0)
    case None => [s]
    case Some(i) => [s[..i]] + SplitOn(s[i + |sep|..], sep)
  }

  /** Python's `sep.join(parts)`. */
  function Join(parts: seq<string>, sep: string): string
    decreases |parts|
  {
    if parts == [] then []
    else if |parts| == 1 then parts[0]
    else parts[0] + sep + Join(parts[1..], sep)
  }

  /** `sep.join(s.split(sep)) == s`. */
  lemma {:induction false} SplitOnJoin(s: string, sep: string)
    requires sep != []
    ensures Join(SplitOn(s, sep), sep) == s
    decreases |s|
  {
    var f := FindFrom(s, sep, 0);
    if f.Some? {
      var i := f.value;
      var head, rest := s[..i], s[i + |sep|..];
      SplitOnJoin(rest, sep);
      JoinCons(head, SplitOn(rest, sep), sep);
      Around(s, i, |sep|);
    }
  }

  lemma JoinCons(head: string, parts: seq<string>, sep: string)
    requires parts != []
    ensures Join([head] + parts, sep) == head + sep + Join(parts, sep)
  {
    assert ([head] + parts)[1..] == parts;
  }

  lemma JoinThree(f: seq<string>, sep: string)
    requires |f| == 3
    ensures Join(f, sep) == f[0] + sep + f[1] + sep + f[2]
  {
    var rest := f[1..];
    assert rest[1..] == [f[2]];
    assert Join(rest, sep) == f[1] + sep + f[2];
    assert Join(f, sep) == f[0] + sep + (f[1] + sep + f[2]);
  }

  lemma Around(s: string, i: nat, n: nat)
    requires i + n <= |s|
    ensures s == s[..i] + s[i..i + n] + s[i + n..]
  {
  }

  /** No piece of `s.split(sep)` contains the separator. */
  lemma {:induction false} SplitOnPieces(s: string, sep: string)
    requires sep != []
    ensures forall k :: 0 <= k < |SplitOn(s, sep)| ==> !Contains(SplitOn(s, sep)[k], sep)
    decreases |s|
  {
    match FindFrom(s, sep, 0)
    case None =>
    case Some(i) =>
      var rest := s[i + |sep|..];
      SplitOnPieces(rest, sep);
      var head := s[..i];
      assert SplitOn(s, sep) == [head] + SplitOn(rest, sep);
      if Contains(head, sep) {
        var j := FindFrom(head, sep, 0).value;
        assert head[j..j + |sep|] == s[j..j + |sep|];
        assert OccursAt(s, sep, j);
        assert false;
      }
  }

  /** The length of the leading run of non-whitespace characters of `s`. */
  function WordLength(s: string): (n: nat)
    ensures n <= |s|
    ensures forall i :: 0 <= i < n ==> !IsSpace(s[i])
    ensures n == |s| || IsSpace(s[n])
    decreases |s|
  {
    if s == [] || IsSpace(s[0]) then 0 else 1 + WordLength(s[1..])
  }

  /** A non-empty run of non-whitespace characters. */
  predicate IsWord(w: string) {
    w != [] && forall i :: 0 <= i < |w| ==> !IsSpace(w[i])
  }

  /** Python's `s.split()`: the maximal runs of non-whitespace characters, in order. */
  function Tokens(s: string): seq<string>
    decreases |s|
  {
    var t := TrimStart(s);
    if t == [] then []
    else
      var n := WordLength(t);
      assert n > 0;
      [t[..n]] + Tokens(t[n..])
  }

  /** Every piece of `s.split()` is a word. */
  lemma {:induction false} TokensAreWords(s: string)
    ensures forall k :: 0 <= k < |Tokens(s)| ==> IsWord(Tokens(s)[k])
    decreases |s|
  {
    var t := TrimStart(s);
    if t != [] {
      var n := WordLength(t);
      var rest := Tokens(t[n..]);
      TokensAreWords(t[n..]);
      var r := [t[..n]] + rest;
      assert Tokens(s) == r;
      forall k | 0 <= k < |r| ensures IsWord(r[k]) {
        if k > 0 {
          assert r[k] == rest[k - 1];
        }
      }
    }
  }

  /** `s.split()[0]`, or None where Python raises IndexError: the first word of `s`. */
  function FirstToken(s: string): Option<string> {
    var t := TrimStart(s);
    if t == [] then None else Some(t[..WordLength(t)])
  }

  /** `FirstToken` is the head of `str.split()`. */
  lemma FirstTokenOfTokens(s: string)
    ensures FirstToken(s) == if Tokens(s) == [] then None else Some(Tokens(s)[0])
  {
  }

  lemma {:induction false} WordLengthPrefix(t: string, m: nat)
    requires WordLength(t) <= m <= |t|
    ensures WordLength(t[..m]) == WordLength(t)
    decreases |t|
  {
    if t != [] && !IsSpace(t[0]) && m > 0 {
      WordLengthPrefix(t[1..], m - 1);
      assert t[..m][1..] == t[1..][..m - 1];
    }
  }

  /** Leading whitespace does not change what `lstrip` leaves. */
  lemma {:induction false} TrimStartSpaces(w: string, x: string)
    requires forall i :: 0 <= i < |w| ==> IsSpace(w[i])
    ensures TrimStart(w + x) == TrimStart(x)
    decreases |w|
  {
    if w == [] {
      assert w + x == x;
    } else {
      assert (w + x)[1..] == w[1..] + x;
      TrimStartSpaces(w[1..], x);
    }
  }

  /** A run of non-whitespace followed by whitespace or the end is one word. */
  lemma {:induction false} WordLengthConcat(v: string, c: string)
    requires forall i :: 0 <= i < |v| ==> !IsSpace(v[i])
    requires c == [] || IsSpace(c[0])
    ensures WordLength(v + c) == |v|
    decreases |v|
  {
    if v == [] {
      assert v + c == c;
    } else {
      assert (v + c)[1..] == v[1..] + c;
      WordLengthConcat(v[1..], c);
    }
  }

  /** The first token of whitespace, a word and whatever follows after more whitespace is that word. */
  lemma FirstTokenOfWord(w: string, v: string, c: string)
    requires forall i :: 0 <= i < |w| ==> IsSpace(w[i])
    requires IsWord(v) && (c == [] || IsSpace(c[0]))
    ensures FirstToken(w + v + c) == Some(v)
  {
    var x := v + c;
    assert w + v + c == w + x;
    TrimStartSpaces(w, x);
    assert TrimStart(x) == x by {
      assert x[0] == v[0];
    }
    WordLengthConcat(v, c);
    assert x[..|v|] == v;
  }

  /** Prefixing characters that cannot start the separator adds no occurrence of it. */
  lemma NoOccurrenceAfter(p: string, c: string, sep: string)
    requires sep != [] && !Contains(c, sep)
    requires forall i :: 0 <= i < |p| ==> p[i] != sep[0]
    ensures !Contains(p + c, sep)
  {
    var s := p + c;
    ContainsMeansOccurs(c, sep);
    forall j ensures !OccursAt(s, sep, j) {
      if 0 <= j < |p| && j + |sep| <= |s| {
        assert s[j..j + |sep|][0] == p[j];
      } else if |p| <= j && j + |sep| <= |s| {
        assert s[j..j + |sep|] == c[j - |p|..j - |p| + |sep|];
        assert !OccursAt(c, sep, j - |p|);
      }
    }
    ContainsMeansOccurs(s, sep);
  }

  /** `s.strip().split()[0]` is `s.split()[0]`: splitting on whitespace already drops the outer whitespace. */
  lemma FirstTokenStrip(s: string)
    ensures FirstToken(Strip(s)) == FirstToken(s)
  {
    var t := TrimStart(s);
    var e := TrimEnd(t);
    if t != [] {
      var n := WordLength(t);
      assert n <= |e| by {
        assert |e| < |t| ==> IsSpace(t[|e|]);
      }
      assert TrimStart(e) == e by {
        assert e[0] == t[0];
      }
      assert WordLength(e) == n && e[..n] == t[..n] by {
        WordLengthPrefix(t, |e|);
      }
    }
  }

  /**
   * Python's `str.title()`, scanning left to right: a cased character is upper-cased
   * when the character before it is not cased, and lower-cased otherwise.
   */
  function TitleFrom(s: string, previousCased: bool): (r: string)
    ensures |r| == |s|
    decreases |s|
  {
    if s == [] then []
    else [if previousCased then LowerChar(s[0]) else UpperChar(s[0])] + TitleFrom(s[1..], IsCased(s[0]))
  }

  function Title(s: string): string {
    TitleFrom(s, false)
  }

  /**
   * Title case, stated character by character: the first cased letter of every word is
   * upper case, every other letter lower case, and uncased characters are unchanged.
   */
  lemma {:induction false} TitleAt(s: string, i: nat)
    requires i < |s|
    ensures |Title(s)| == |s|
    ensures Title(s)[i] == if i > 0 && IsCased(s[i - 1]) then LowerChar(s[i]) else UpperChar(s[i])
  {
    TitleFromAt(s, false, i);
  }

  lemma {:induction false} TitleFromAt(s: string, p: bool, i: nat)
    requires i < |s|
    ensures TitleFrom(s, p)[i] == if (if i == 0 then p else IsCased(s[i - 1])) then LowerChar(s[i]) else UpperChar(s[i])
    decreases i
  {
    if i > 0 {
      TitleFromAt(s[1..], IsCased(s[0]), i - 1);
      assert TitleFrom(s, p)[i] == TitleFrom(s[1..], IsCased(s[0]))[i - 1];
      if i - 1 > 0 {
        assert s[1..][i - 2] == s[i - 1];
      }
    }
  }

  /** Title-casing a title-cased string changes nothing. */
  lemma TitleIdempotent(s: string)
    ensures Title(Title(s)) == Title(s)
  {
    var t := Title(s);
    assert |t| == |s|;
    forall i | 0 <= i < |s|
      ensures Title(t)[i] == t[i]
    {
      TitleAt(s, i);
      TitleAt(t, i);
      if i > 0 {
        TitleAt(s, i - 1);
      }
    }
  }

  /** Python's `a < b` on strings: lexicographic by code point, a proper prefix first. */
  predicate StrLess(a: string, b: string)
    decreases |a|
  {
    if a == [] then b != []
    else if b == [] then false
    else if a[0] != b[0] then a[0] < b[0]
    else StrLess(a[1..], b[1..])
  }

  lemma StrLessIrreflexive(a: string)
    ensures !StrLess(a, a)
  {
  }

  lemma StrLessAsymmetric(a: string, b: string)
    ensures !(StrLess(a, b) && StrLess(b, a))
  {
  }

  lemma StrLessTransitive(a: string, b: string, c: string)
    requires StrLess(a, b) && StrLess(b, c)
    ensures StrLess(a, c)
  {
    if a != [] && b != [] && c != [] && a[0] == b[0] && b[0] == c[0] {
      StrLessTransitive(a[1..], b[1..], c[1..]);
    }
  }

  lemma StrLessTotal(a: string, b: string)
    ensures a == b || StrLess(a, b) || StrLess(b, a)
  {
    if a != [] && b != [] && a[0] == b[0] {
      StrLessTotal(a[1..], b[1..]);
      if a[1..] == b[1..] {
        assert a == [a[0]] + a[1..];
        assert b == [b[0]] + b[1..];
      }
    }
  }

  function DigitValue(c: char): int {
    c as int - '0' as int
  }

  /** `int(s)` for a string of ASCII digits. */
  function DecimalValue(s: string): int
    decreases |s|
  {
    if s == [] then 0 else 10 * DecimalValue(s[..|s| - 1]) + DigitValue(s[|s| - 1])
  }

  function DigitChar(d: int): char
    requires 0 <= d < 10
  {
    ('0' as int + d) as char
  }

  /** `f"{n:0{width}d}"` for `0 <= n < 10^width`: the zero-padded decimal digits of `n`. */
  function Padded(n: nat, width: nat): (s: string)
    ensures |s| == width && AllDigits(s)
    decreases width
  {
    if width == 0 then [] else Padded(n / 10, width - 1) + [DigitChar(n % 10)]
  }

  function Pow10(k: nat): nat {
    if k == 0 then 1 else 10 * Pow10(k - 1)
  }

  /** Reading back zero-padded digits gives the number. */
  lemma {:induction false} PaddedValue(n: nat, width: nat)
    requires n < Pow10(width)
    ensures DecimalValue(Padded(n, width)) == n
    decreases width
  {
    if width > 0 {
      PaddedValue(n / 10, width - 1);
      var s := Padded(n, width);
      assert s[..|s| - 1] == Padded(n / 10, width - 1);
    }
  }

  /** Digits read as a number and written back at the same width are the same digits. */
  lemma {:induction false} PaddedOfDigits(s: string)
    requires AllDigits(s)
    ensures 0 <= DecimalValue(s) < Pow10(|s|)
    ensures Padded(DecimalValue(s), |s|) == s
    decreases |s|
  {
    if s != [] {
      var prefix := s[..|s| - 1];
      PaddedOfDigits(prefix);
      var v, d := DecimalValue(prefix), DigitValue(s[|s| - 1]);
      assert 0 <= d < 10;
      assert (10 * v + d) / 10 == v && (10 * v + d) % 10 == d;
      assert DigitChar(d) == s[|s| - 1];
      assert s == prefix + [s[|s| - 1]];
    }
  }
}
