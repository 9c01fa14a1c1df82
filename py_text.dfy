/** Python's built-in string operations that the modelled files rely on
    (str.strip, str.split, str.replace, int(), str(int), ordering of str). */
module PyText {

  datatype Option<+T> = None | Some(value: T)

  /** str.isspace() on one character: the characters str.split(), str.strip(),
      int() and the regular expression class \s treat as whitespace. */
  predicate IsSpace(c: char)
  {
    var n := c as int;
    || 9 <= n <= 13 || 28 <= n <= 32 || n == 0x85 || n == 0xA0 || n == 0x1680
    || 0x2000 <= n <= 0x200A || n == 0x2028 || n == 0x2029 || n == 0x202F
    || n == 0x205F || n == 0x3000
  }

  predicate IsDigit(c: char)
  {
    '0' <= c <= '9'
  }

  predicate NoSpace(s: string)
  {
    forall i :: 0 <= i < |s| ==> !IsSpace(s[i])
  }

  predicate AllSpace(s: string)
  {
    forall i :: 0 <= i < |s| ==> IsSpace(s[i])
  }

  predicate StartsWith(s: string, prefix: string)
  {
    |prefix| <= |s| && s[..|prefix|] == prefix
  }

  // ---------------------------------------------------------------- strip

  function LStrip(s: string): (r: string)
    ensures |r| <= |s| && r == s[|s| - |r|..]
    ensures r == [] || !IsSpace(r[0])
    ensures AllSpace(s[..|s| - |r|])
  {
    if |s| > 0 && IsSpace(s[0]) then LStrip(s[1..]) else s
  }

  function RStrip(s: string): (r: string)
    ensures |r| <= |s| && r == s[..|r|]
    ensures r == [] || !IsSpace(r[|r| - 1])
    ensures AllSpace(s[|r|..])
  {
    if |s| > 0 && IsSpace(s[|s| - 1]) then
      var r := RStrip(s[..|s| - 1]);
      assert s[|r|..] == s[..|s| - 1][|r|..] + [s[|s| - 1]];
      r
    else s
  }

  /** str.strip(): the text with leading and trailing whitespace removed;
      what it returns neither starts nor ends with whitespace. */
  function Strip(s: string): (r: string)
    ensures |r| <= |s|
    ensures r == [] || (!IsSpace(r[0]) && !IsSpace(r[|r| - 1]))
  {
    var l := LStrip(s);
    var r := RStrip(l);
    assert r == [] || r[0] == l[0];
    r
  }

  /** strip() removes a run of whitespace at each end and nothing else. */
  lemma StripShape(s: string)
    ensures var r := Strip(s); var i := |s| - |LStrip(s)|;
      i + |r| <= |s| && r == s[i..i + |r|] && AllSpace(s[..i]) && AllSpace(s[i + |r|..])
  {
    var l := LStrip(s);
    var r := RStrip(l);
    SuffixParts(s, |s| - |l|, l, r);
  }

  /** A prefix r of the suffix l of s is a slice of s, and what follows r in
      l is what follows that slice in s. */
  lemma SuffixParts(s: string, i: nat, l: string, r: string)
    requires i <= |s| && l == s[i..] && |r| <= |l| && r == l[..|r|] && AllSpace(l[|r|..])
    ensures i + |r| <= |s| && r == s[i..i + |r|] && AllSpace(s[i + |r|..])
  {
    SliceOfSuffix(s, i, |r|);
  }

  lemma SliceOfSuffix(s: string, i: nat, k: nat)
    requires i + k <= |s|
    ensures s[i..][..k] == s[i..i + k] && s[i..][k..] == s[i + k..]
  {
  }

  lemma StripNoSpaceAtEnds(s: string)
    requires s == [] || (!IsSpace(s[0]) && !IsSpace(s[|s| - 1]))
    ensures Strip(s) == s
  {
    assert LStrip(s) == s;
    assert RStrip(s) == s;
  }

  /** Trailing whitespace after text that starts and ends with a non-space is
      exactly what strip() removes. */
  lemma StripTrailing(s: string, w: string)
    requires s != [] && !IsSpace(s[0]) && !IsSpace(s[|s| - 1]) && AllSpace(w)
    ensures Strip(s + w) == s
  {
    assert LStrip(s + w) == s + w by { assert (s + w)[0] == s[0]; }
    RStripSpaces(s, w);
  }

  lemma {:induction false} RStripSpaces(s: string, w: string)
    requires s != [] && !IsSpace(s[|s| - 1]) && AllSpace(w)
    ensures RStrip(s + w) == s
    decreases |w|
  {
    if w == [] {
      assert s + w == s;
    } else {
      var w' := w[..|w| - 1];
      assert (s + w)[..|s + w| - 1] == s + w';
      assert IsSpace((s + w)[|s + w| - 1]) by { assert (s + w)[|s + w| - 1] == w[|w| - 1]; }
      RStripSpaces(s, w');
    }
  }

  // ---------------------------------------------------------------- split()

  /** The index of the first whitespace character at or after i, or |s|. */
  function TokenEnd(s: string, i: nat): (j: nat)
    requires i <= |s|
    ensures i <= j <= |s|
    ensures NoSpace(s[i..j])
    ensures j == |s| || IsSpace(s[j])
    decreases |s| - i
  {
    if i == |s| || IsSpace(s[i]) then i else TokenEnd(s, i + 1)
  }

  /** The index of the first non-whitespace character at or after i, or |s|. */
  function SpaceEnd(s: string, i: nat): (j: nat)
    requires i <= |s|
    ensures i <= j <= |s|
    ensures AllSpace(s[i..j])
    ensures j == |s| || !IsSpace(s[j])
    decreases |s| - i
  {
    if i == |s| || !IsSpace(s[i]) then i else SpaceEnd(s, i + 1)
  }

  function SplitFrom(s: string, i: nat): (r: seq<string>)
    requires i <= |s|
    ensures forall k :: 0 <= k < |r| ==> r[k] != [] && NoSpace(r[k])
    decreases |s| - i
  {
    var a := SpaceEnd(s, i);
    if a == |s| then []
    else
      var b := TokenEnd(s, a);
      [s[a..b]] + SplitFrom(s, b)
  }

  /** str.split() with no argument: the maximal runs of non-whitespace
      characters, none of them empty. */
  function Split(s: string): (r: seq<string>)
    ensures forall k :: 0 <= k < |r| ==> r[k] != [] && NoSpace(r[k])
  {
    SplitFrom(s, 0)
  }

  /** sep.join(parts) */
  function Join(parts: seq<string>, sep: string): (r: string)
  {
    if |parts| == 0 then []
    else if |parts| == 1 then parts[0]
    else parts[0] + sep + Join(parts[1..], sep)
  }

  lemma SplitFromSuffix(s: string, i: nat)
    requires i <= |s|
    ensures SplitFrom(s, i) == Split(s[i..])
  {
    SplitFromShift(s[i..], s, i, 0);
  }

  /** Splitting t from position k gives the same tokens as splitting s from k + off
      when t is the suffix of s starting at off. */
  lemma {:induction false} SplitFromShift(t: string, s: string, off: nat, k: nat)
    requires off <= |s| && t == s[off..] && k <= |t|
    ensures SplitFrom(s, off + k) == SplitFrom(t, k)
    decreases |t| - k
  {
    SpaceEndShift(t, s, off, k);
    var a := SpaceEnd(t, k);
    if a < |t| {
      TokenEndShift(t, s, off, a);
      var b := TokenEnd(t, a);
      assert s[off + a..off + b] == t[a..b];
      SplitFromShift(t, s, off, b);
    }
  }

  lemma {:induction false} SpaceEndShift(t: string, s: string, off: nat, k: nat)
    requires off <= |s| && t == s[off..] && k <= |t|
    ensures SpaceEnd(s, off + k) == off + SpaceEnd(t, k)
    decreases |t| - k
  {
    if k < |t| && IsSpace(t[k]) {
      SpaceEndShift(t, s, off, k + 1);
    }
  }

  lemma {:induction false} TokenEndShift(t: string, s: string, off: nat, k: nat)
    requires off <= |s| && t == s[off..] && k <= |t|
    ensures TokenEnd(s, off + k) == off + TokenEnd(t, k)
    decreases |t| - k
  {
    if k < |t| && !IsSpace(t[k]) {
      TokenEndShift(t, s, off, k + 1);
    }
  }

  lemma {:induction false} TokenEndWhole(s: string, i: nat)
    requires i <= |s| && NoSpace(s[i..])
    ensures TokenEnd(s, i) == |s|
    decreases |s| - i
  {
    if i < |s| {
      assert s[i..][0] == s[i];
      assert s[i + 1..] == s[i..][1..];
      TokenEndWhole(s, i + 1);
    }
  }

  lemma {:induction false} SpaceEndWhole(s: string, i: nat)
    requires i <= |s| && AllSpace(s[i..])
    ensures SpaceEnd(s, i) == |s|
    decreases |s| - i
  {
    if i < |s| {
      assert s[i..][0] == s[i];
      assert s[i + 1..] == s[i..][1..];
      SpaceEndWhole(s, i + 1);
    }
  }

  /** Splitting tokens joined by a whitespace separator gives the tokens back. */
  lemma {:induction false} SplitJoin(parts: seq<string>, sep: string)
    requires sep != [] && AllSpace(sep)
    requires forall k :: 0 <= k < |parts| ==> parts[k] != [] && NoSpace(parts[k])
    ensures Split(Join(parts, sep)) == parts
  {
    var s := Join(parts, sep);
    if |parts| == 0 {
    } else if |parts| == 1 {
      assert s == parts[0];
      assert s[0..] == s;
      TokenEndWhole(s, 0);
      assert !IsSpace(s[0]);
      assert SpaceEnd(s, 0) == 0;
      assert SpaceEnd(s, |s|) == |s|;
      assert SplitFrom(s, |s|) == [];
      assert s[0..|s|] == s;
      assert SplitFrom(s, 0) == [s[0..|s|]] + SplitFrom(s, |s|);
    } else {
      var p := parts[0];
      var rest := Join(parts[1..], sep);
      assert s == p + sep + rest;
      assert s == p + (sep + rest);
      assert !IsSpace(s[0]);
      assert SpaceEnd(s, 0) == 0;
      TokenEndPrefix(p, sep + rest);
      var b := |p|;
      assert TokenEnd(s, 0) == b;
      assert s[0..b] == p;
      SpaceEndPrefix(p + sep, rest, b);
      SplitFromGap(s, b, |p| + |sep|);
      SplitFromSuffix(s, |p| + |sep|);
      assert s[|p| + |sep|..] == rest;
      SplitJoin(parts[1..], sep);
    }
  }

  lemma {:induction false} TokenEndPrefix(p: string, tail: string)
    requires NoSpace(p) && tail != [] && IsSpace(tail[0])
    ensures TokenEnd(p + tail, 0) == |p|
  {
    var s := p + tail;
    var k := 0;
    while k < |p|
      invariant 0 <= k <= |p|
      invariant TokenEnd(s, 0) == TokenEnd(s, k)
    {
      assert s[k] == p[k];
      k := k + 1;
    }
    assert s[|p|] == tail[0];
  }

  lemma {:induction false} SpaceEndPrefix(ps: string, rest: string, b: nat)
    requires b <= |ps| && AllSpace(ps[b..])
    requires rest != [] && !IsSpace(rest[0])
    ensures SpaceEnd(ps + rest, b) == |ps|
    decreases |ps| - b
  {
    var s := ps + rest;
    if b < |ps| {
      assert s[b] == ps[b..][0];
      assert ps[b + 1..] == ps[b..][1..];
      SpaceEndPrefix(ps, rest, b + 1);
    } else {
      assert s[b] == rest[0];
    }
  }

  /** Starting the split inside a whitespace gap does not change the tokens. */
  lemma SplitFromGap(s: string, i: nat, j: nat)
    requires i <= j <= |s| && SpaceEnd(s, i) == j
    requires j < |s|
    ensures SplitFrom(s, i) == SplitFrom(s, j)
  {
  }

  // ---------------------------------------------------------------- split(sep)

  /** The index of the first occurrence of c at or after i, or |s|. */
  function FindFrom(s: string, c: char, i: nat): (j: nat)
    requires i <= |s|
    ensures i <= j <= |s|
    ensures forall k :: i <= k < j ==> s[k] != c
    ensures j < |s| ==> s[j] == c
    decreases |s| - i
  {
    if i == |s| || s[i] == c then i else FindFrom(s, c, i + 1)
  }

  predicate Contains(s: string, c: char)
  {
    exists k :: 0 <= k < |s| && s[k] == c
  }

  /** s.split(c): the pieces between occurrences of c (one more piece than occurrences). */
  function SplitOn(s: string, c: char): (r: seq<string>)
    ensures |r| >= 1
    ensures forall k :: 0 <= k < |r| ==> !Contains(r[k], c)
    ensures |r| == 1 <==> !Contains(s, c)
    decreases |s|
  {
    var j := FindFrom(s, c, 0);
    if j == |s| then [s] else [s[..j]] + SplitOn(s[j + 1..], c)
  }

  lemma SplitOnFirst(s: string, c: char)
    ensures SplitOn(s, c)[0] == s[..FindFrom(s, c, 0)]
  {
  }

  // ---------------------------------------------------------------- replace

  /** s.replace(a, b) for single characters. */
  function ReplaceAll(s: string, a: char, b: char): (r: string)
    ensures |r| == |s|
    ensures forall k :: 0 <= k < |s| ==> r[k] == (if s[k] == a then b else s[k])
  {
    if s == [] then [] else [if s[0] == a then b else s[0]] + ReplaceAll(s[1..], a, b)
  }

  /** The number of occurrences of c in s. */
  function Count(s: string, c: char): (n: nat)
    ensures n <= |s|
  {
    if s == [] then 0 else (if s[|s| - 1] == c then 1 else 0) + Count(s[..|s| - 1], c)
  }

  /** s.replace(a, b, n) for single characters: only the first n occurrences change. */
  function ReplaceFirst(s: string, a: char, b: char, n: nat): (r: string)
    ensures |r| == |s|
  {
    if s == [] then []
    else if s[0] == a && n > 0 then [b] + ReplaceFirst(s[1..], a, b, n - 1)
    else [s[0]] + ReplaceFirst(s[1..], a, b, n)
  }

  lemma {:induction false} ReplaceFirstAt(s: string, a: char, b: char, n: nat, k: nat)
    requires k < |s|
    ensures ReplaceFirst(s, a, b, n)[k] ==
      if s[k] == a && Count(s[..k], a) < n then b else s[k]
  {
    if k > 0 {
      var t := s[1..];
      var m := if s[0] == a && n > 0 then n - 1 else n;
      ReplaceFirstAt(t, a, b, m, k - 1);
      CountCons(s[..k], a);
      assert s[..k][1..] == t[..k - 1];
    }
  }

  lemma {:induction false} CountCons(s: string, c: char)
    requires s != []
    ensures Count(s, c) == (if s[0] == c then 1 else 0) + Count(s[1..], c)
    decreases |s|
  {
    if |s| > 1 {
      CountCons(s[..|s| - 1], c);
      assert s[..|s| - 1][1..] == s[1..][..|s| - 2];
    }
  }

  // ---------------------------------------------------------------- case

  /** str.lower() on the characters whose lower case is a single ASCII
      letter: the ASCII capitals and the Kelvin sign. Every other character
      is left as it is. */
  function Lower(s: string): (r: string)
    ensures |r| == |s|
    ensures forall k :: 0 <= k < |s| ==> r[k] == LowerChar(s[k])
    ensures forall k :: 0 <= k < |r| ==> !('A' <= r[k] <= 'Z') && r[k] != KELVIN
    ensures forall k :: 0 <= k < |s| ==> (IsSpace(r[k]) <==> IsSpace(s[k]))
  {
    if s == [] then [] else [LowerChar(s[0])] + Lower(s[1..])
  }

  /** KELVIN SIGN, U+212A, which lower() turns into 'k'. */
  const KELVIN: char := '\U{212A}'

  function LowerChar(c: char): char
  {
    if 'A' <= c <= 'Z' then (c as int + 32) as char
    else if c == KELVIN then 'k'
    else c
  }

  // ---------------------------------------------------------------- int()

  function DigitValue(c: char): nat
    requires IsDigit(c)
  {
    c as int - '0' as int
  }

  predicate AllDigits(s: string)
  {
    forall k :: 0 <= k < |s| ==> IsDigit(s[k])
  }

  /** The value of a string of decimal digits. */
  function DigitsValue(ds: string): nat
    requires AllDigits(ds)
  {
    if ds == [] then 0 else DigitsValue(ds[..|ds| - 1]) * 10 + DigitValue(ds[|ds| - 1])
  }

  /** An optional sign followed by at least one ASCII decimal digit. */
  predicate IsIntLiteral(s: string)
  {
    if s != [] && (s[0] == '+' || s[0] == '-') then s[1..] != [] && AllDigits(s[1..])
    else s != [] && AllDigits(s)
  }

  /** An integer literal as int() reads it once the whitespace is stripped:
      an optional sign followed by at least one ASCII decimal digit. */
  function ParseIntLiteral(s: string): (r: Option<int>)
    ensures r.Some? ==> s != [] && !IsSpace(s[0])
  {
    if s == [] then None
    else if s[0] == '+' || s[0] == '-' then
      var ds := s[1..];
      if ds != [] && AllDigits(ds) then
        var v: int := DigitsValue(ds);
        Some(if s[0] == '-' then -v else v)
      else None
    else if AllDigits(s) then Some(DigitsValue(s))
    else None
  }

  /** int(s) on a str: surrounding whitespace is allowed, and between it an
      optional sign and ASCII decimal digits; other text raises ValueError
      (None). Python 3's int() also reads other Unicode decimal digits and
      single underscores between digits, which this reading refuses. */
  function PyInt(s: string): (r: Option<int>)
    ensures r.Some? <==> IsIntLiteral(Strip(s))
    ensures r.Some? && AllDigits(Strip(s)) ==> r.value >= 0
  {
    ParseIntLiteral(Strip(s))
  }

  function DigitChar(d: nat): (c: char)
    requires d < 10
    ensures IsDigit(c) && DigitValue(c) == d
  {
    ('0' as int + d) as char
  }

  function NatToDigits(n: nat): (ds: string)
    ensures ds != [] && AllDigits(ds)
  {
    if n < 10 then [DigitChar(n)] else NatToDigits(n / 10) + [DigitChar(n % 10)]
  }

  /** str(n) / u'{}'.format(n) for an int. */
  function IntToStr(n: int): (s: string)
    ensures s != [] && NoSpace(s)
    ensures forall k :: 0 <= k < |s| ==> s[k] != ','
  {
    if n < 0 then "-" + NatToDigits(-n) else NatToDigits(n)
  }

  lemma {:induction false} DigitsOfNat(n: nat)
    ensures DigitsValue(NatToDigits(n)) == n
  {
    if n >= 10 {
      var ds := NatToDigits(n);
      assert ds[..|ds| - 1] == NatToDigits(n / 10);
      DigitsOfNat(n / 10);
    }
  }

  /** int(str(n)) == n */
  lemma ParseNatDigits(n: nat)
    ensures ParseIntLiteral(NatToDigits(n)) == Some(n)
  {
    var ds := NatToDigits(n);
    assert IsDigit(ds[0]);
    DigitsOfNat(n);
  }

  lemma ParseNegDigits(ds: string)
    requires ds != [] && AllDigits(ds)
    ensures ParseIntLiteral("-" + ds) == Some(-(DigitsValue(ds) as int))
  {
    assert ("-" + ds)[1..] == ds;
  }

  /** int(str(n)) == n */
  lemma IntToStrRoundTrip(n: int)
    ensures PyInt(IntToStr(n)) == Some(n)
  {
    if n < 0 {
      var ds := NatToDigits(-n);
      DigitsOfNat(-n);
      ParseNegDigits(ds);
      StripNoSpaceAtEnds("-" + ds);
    } else {
      ParseNatDigits(n);
      StripNoSpaceAtEnds(NatToDigits(n));
    }
  }

  // ---------------------------------------------------------------- ordering

  /** Python's < on str: lexicographic by code point; a proper prefix comes
      first, and a text never comes before one of its own prefixes. */
  predicate StrLt(a: string, b: string)
    ensures |a| < |b| && a == b[..|a|] ==> StrLt(a, b)
    ensures |b| < |a| && b == a[..|b|] ==> !StrLt(a, b)
  {
    if |a| == 0 then |b| > 0
    else if |b| == 0 then false
    else if a[0] == b[0] then
      assert |a| < |b| && a == b[..|a|] ==> a[1..] == b[1..][..|a| - 1];
      assert |b| < |a| && b == a[..|b|] ==> b[1..] == a[1..][..|b| - 1];
      StrLt(a[1..], b[1..])
    else a[0] < b[0]
  }

  lemma {:induction false} StrLtIrreflexive(a: string)
    ensures !StrLt(a, a)
  {
    if |a| > 0 {
      StrLtIrreflexive(a[1..]);
    }
  }

  lemma {:induction false} StrLtTransitive(a: string, b: string, c: string)
    requires StrLt(a, b) && StrLt(b, c)
    ensures StrLt(a, c)
  {
    if |a| > 0 && |b| > 0 && |c| > 0 && a[0] == b[0] && b[0] == c[0] {
      StrLtTransitive(a[1..], b[1..], c[1..]);
    }
  }

  lemma {:induction false} StrLtTotal(a: string, b: string)
    ensures a == b || StrLt(a, b) || StrLt(b, a)
  {
    if |a| > 0 && |b| > 0 && a[0] == b[0] {
      StrLtTotal(a[1..], b[1..]);
      if a[1..] == b[1..] {
        assert a == [a[0]] + a[1..] && b == [b[0]] + b[1..];
      }
    }
  }

  lemma StrLtAsymmetric(a: string, b: string)
    ensures !(StrLt(a, b) && StrLt(b, a))
  {
    if StrLt(a, b) && StrLt(b, a) {
      StrLtTransitive(a, b, a);
      StrLtIrreflexive(a);
    }
  }
}
