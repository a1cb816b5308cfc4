/** The JavaScript string built-ins the core relies on: `startsWith`,
    `endsWith`, `includes`, `toLowerCase`, `split`, `join`, `trim`, and the
    decimal rendering of an integral number inside a template literal. */
module JsStrings {
  import opened Wrappers

  predicate StartsWith(s: string, prefix: string) {
    |prefix| <= |s| && s[..|prefix|] == prefix
  }

  predicate EndsWith(s: string, suffix: string) {
    |suffix| <= |s| && s[|s| - |suffix|..] == suffix
  }

  /** A prefix stays a prefix when text is appended. */
  lemma StartsWithAppend(s: string, t: string, prefix: string)
    requires StartsWith(s, prefix)
    ensures StartsWith(s + t, prefix)
  {
    assert (s + t)[..|prefix|] == s[..|prefix|];
  }

  /** A suffix stays a suffix when text is prepended. */
  lemma EndsWithPrepend(s: string, t: string, suffix: string)
    requires EndsWith(t, suffix)
    ensures EndsWith(s + t, suffix)
  {
    assert (s + t)[|s + t| - |suffix|..] == t[|t| - |suffix|..];
  }

  /** A prefix of a prefix is a prefix. */
  lemma StartsWithTrans(s: string, t: string, prefix: string)
    requires StartsWith(s, t) && StartsWith(t, prefix)
    ensures StartsWith(s, prefix)
  {
    assert s[..|prefix|] == t[..|prefix|];
  }

  /** A string ending in `t` ends in the last character of `t`. */
  lemma EndsWithLast(s: string, t: string)
    requires |t| > 0
    ensures EndsWith(s, t) ==> |s| > 0 && s[|s| - 1] == t[|t| - 1]
  {
    if EndsWith(s, t) {
      assert s[|s| - |t|..][|t| - 1] == s[|s| - 1];
    }
  }

  // ---------------------------------------------------------------------
  // indexOf / includes
  // ---------------------------------------------------------------------

  /** The leftmost position, from `start` on, at which `t` occurs in `s`,
      or None when it does not occur there. */
  function IndexOfFrom(s: string, t: string, start: nat): (r: Option<nat>)
    requires start <= |s|
    ensures r.Some? ==> start <= r.value && r.value + |t| <= |s| && StartsWith(s[r.value..], t)
    ensures r.Some? ==> forall j :: start <= j < r.value ==> !StartsWith(s[j..], t)
    ensures r.None? ==> forall j :: start <= j <= |s| ==> !StartsWith(s[j..], t)
    decreases |s| - start
  {
    if StartsWith(s[start..], t) then Some(start)
    else if start == |s| then None
    else IndexOfFrom(s, t, start + 1)
  }

  /** `s.indexOf(t)`: the leftmost position at which `t` occurs in `s`, or
      None when it does not occur. */
  function IndexOf(s: string, t: string): (r: Option<nat>)
    ensures r.Some? ==> r.value + |t| <= |s| && StartsWith(s[r.value..], t)
    ensures r.Some? ==> forall j :: 0 <= j < r.value ==> !StartsWith(s[j..], t)
    ensures r.None? ==> forall j :: 0 <= j <= |s| ==> !StartsWith(s[j..], t)
  {
    IndexOfFrom(s, t, 0)
  }

  /** `s.includes(t)`. */
  predicate Contains(s: string, t: string) {
    IndexOf(s, t).Some?
  }

  /** An occurrence of `t` at any position of `s` makes `s` contain `t`. */
  lemma ContainsAt(s: string, t: string, i: nat)
    requires i <= |s| && StartsWith(s[i..], t)
    ensures Contains(s, t)
  {
  }

  /** The leftmost occurrence is the one the ensures of IndexOf describe. */
  lemma IndexOfIs(s: string, t: string, i: nat)
    requires i <= |s| && StartsWith(s[i..], t)
    requires forall j :: 0 <= j < i ==> !StartsWith(s[j..], t)
    ensures IndexOf(s, t) == Some(i)
  {
  }

  /** Appending text after the leftmost occurrence does not move it. */
  lemma IndexOfAppend(a: string, b: string, t: string)
    requires IndexOf(a, t).Some?
    ensures IndexOf(a + b, t) == IndexOf(a, t)
  {
    var i := IndexOf(a, t).value;
    assert (a + b)[i..][..|t|] == a[i..][..|t|];
    forall j | 0 <= j < i
      ensures !StartsWith((a + b)[j..], t)
    {
      assert !StartsWith(a[j..], t);
      assert (a + b)[j..][..|t|] == a[j..][..|t|];
    }
    IndexOfIs(a + b, t, i);
  }

  // ---------------------------------------------------------------------
  // split / join
  // ---------------------------------------------------------------------

  /** `s.split(sep)` for a non-empty string separator: the pieces between
      the leftmost non-overlapping occurrences of `sep`. Like JavaScript,
      the empty string splits into one empty piece. */
  function Split(s: string, sep: string): (parts: seq<string>)
    requires |sep| > 0
    ensures |parts| >= 1
    decreases |s|
  {
    match IndexOf(s, sep)
    case None => [s]
    case Some(i) => [s[..i]] + Split(s[i + |sep|..], sep)
  }

  /** `xs.join(sep)`; the empty array joins to the empty string. */
  function Join(xs: seq<string>, sep: string): (r: string)
    decreases |xs|
  {
    if |xs| == 0 then ""
    else if |xs| == 1 then xs[0]
    else xs[0] + sep + Join(xs[1..], sep)
  }

  /** The text before the leftmost occurrence holds no occurrence. */
  lemma BeforeFirstIsFree(s: string, sep: string, i: nat)
    requires |sep| > 0 && IndexOf(s, sep) == Some(i)
    ensures !Contains(s[..i], sep)
  {
    var head := s[..i];
    forall j | 0 <= j <= |head|
      ensures !StartsWith(head[j..], sep)
    {
      if j + |sep| <= |head| {
        assert !StartsWith(s[j..], sep);
        assert head[j..][..|sep|] == s[j..][..|sep|];
      }
    }
  }

  /** No piece of a split holds the separator. */
  lemma {:induction false} SplitPiecesFree(s: string, sep: string)
    requires |sep| > 0
    ensures forall k :: 0 <= k < |Split(s, sep)| ==> !Contains(Split(s, sep)[k], sep)
    decreases |s|
  {
    var found := IndexOf(s, sep);
    if found.Some? {
      var i := found.value;
      var rest := s[i + |sep|..];
      BeforeFirstIsFree(s, sep, i);
      SplitPiecesFree(rest, sep);
      var pieces := [s[..i]] + Split(rest, sep);
      assert Split(s, sep) == pieces;
      forall k | 0 <= k < |pieces|
        ensures !Contains(pieces[k], sep)
      {
        if k > 0 {
          assert pieces[k] == Split(rest, sep)[k - 1];
        }
      }
    }
  }

  /** Joining a non-empty list after a first piece puts one separator
      between them. */
  lemma JoinCons(x: string, xs: seq<string>, sep: string)
    requires |xs| > 0
    ensures Join([x] + xs, sep) == x + sep + Join(xs, sep)
  {
    assert ([x] + xs)[1..] == xs;
  }

  /** A string with `sep` at position `i` is the text before, `sep`, and
      the text after. */
  lemma SplitAt(s: string, sep: string, i: nat)
    requires i + |sep| <= |s| && StartsWith(s[i..], sep)
    ensures s == s[..i] + sep + s[i + |sep|..]
  {
    assert s[i..][..|sep|] == s[i..i + |sep|];
  }

  /** Joining the pieces of a split with the same separator gives back the
      original string. */
  lemma {:induction false} SplitThenJoin(s: string, sep: string)
    requires |sep| > 0
    ensures Join(Split(s, sep), sep) == s
    decreases |s|
  {
    var found := IndexOf(s, sep);
    if found.Some? {
      var i := found.value;
      var rest := s[i + |sep|..];
      SplitThenJoin(rest, sep);
      JoinCons(s[..i], Split(rest, sep), sep);
      SplitAt(s, sep, i);
    }
  }

  /** `x` is cleanly delimited by `sep`: in `x + sep` the leftmost `sep` is
      the appended one. */
  predicate EndsBeforeSeparator(x: string, sep: string) {
    IndexOf(x + sep, sep) == Some(|x|)
  }

  /** Splitting a join gives back the joined pieces, provided every piece
      but the last is cleanly delimited and the last holds no separator. */
  lemma {:induction false} JoinThenSplit(xs: seq<string>, sep: string)
    requires |sep| > 0 && |xs| > 0
    requires forall k :: 0 <= k < |xs| - 1 ==> EndsBeforeSeparator(xs[k], sep)
    requires !Contains(xs[|xs| - 1], sep)
    ensures Split(Join(xs, sep), sep) == xs
    decreases |xs|
  {
    if |xs| > 1 {
      var x := xs[0];
      var rest := Join(xs[1..], sep);
      assert xs == [x] + xs[1..];
      JoinCons(x, xs[1..], sep);
      var s := (x + sep) + rest;
      assert Join(xs, sep) == s;
      assert EndsBeforeSeparator(x, sep);
      IndexOfAppend(x + sep, rest, sep);
      assert IndexOf(s, sep) == Some(|x|);
      assert s[..|x|] == x;
      assert s[|x| + |sep|..] == rest;
      assert Split(s, sep) == [x] + Split(rest, sep);
      JoinThenSplit(xs[1..], sep);
    }
  }

  // ---------------------------------------------------------------------
  // toLowerCase (ASCII letters)
  // ---------------------------------------------------------------------

  function LowerChar(c: char): (r: char)
    ensures 'A' <= c <= 'Z' ==> 'a' <= r <= 'z'
    ensures !('A' <= c <= 'Z') ==> r == c
  {
    if 'A' <= c <= 'Z' then (c as int + 32) as char else c
  }

  /** `s.toLowerCase()` on the ASCII range: upper-case ASCII letters become
      lower case, every other character is kept. */
  function ToLower(s: string): (r: string)
    ensures |r| == |s|
    ensures forall i :: 0 <= i < |s| ==> r[i] == LowerChar(s[i])
  {
    seq(|s|, i requires 0 <= i < |s| => LowerChar(s[i]))
  }

  /** Lower-casing distributes over concatenation. */
  lemma ToLowerAppend(a: string, b: string)
    ensures ToLower(a + b) == ToLower(a) + ToLower(b)
  {
  }

  /** A suffix test on a lower-cased name is case-insensitive: whatever the
      casing of the extension, the lower-cased name ends in its lower case. */
  lemma ToLowerKeepsSuffix(name: string, ext: string)
    ensures EndsWith(ToLower(name + ext), ToLower(ext))
  {
    ToLowerAppend(name, ext);
    var l := ToLower(name + ext);
    assert l[|l| - |ext|..] == ToLower(ext);
  }

  // ---------------------------------------------------------------------
  // trim
  // ---------------------------------------------------------------------

  /** The characters `String.prototype.trim` removes: ECMAScript WhiteSpace
      and LineTerminator code points. */
  predicate IsJsWhitespace(c: char) {
    || c == '\t' || c == '\n' || c == '\U{000B}' || c == '\U{000C}' || c == '\r'
    || c == ' ' || c == '\U{00A0}' || c == '\U{1680}'
    || ('\U{2000}' <= c <= '\U{200A}')
    || c == '\U{2028}' || c == '\U{2029}' || c == '\U{202F}' || c == '\U{205F}'
    || c == '\U{3000}' || c == '\U{FEFF}'
  }

  function TrimStart(s: string): (r: string)
    ensures |r| <= |s| && r == s[|s| - |r|..]
    ensures forall i :: 0 <= i < |s| - |r| ==> IsJsWhitespace(s[i])
    ensures r == [] || !IsJsWhitespace(r[0])
    decreases |s|
  {
    if |s| > 0 && IsJsWhitespace(s[0]) then TrimStart(s[1..]) else s
  }

  function TrimEnd(s: string): (r: string)
    ensures |r| <= |s| && r == s[..|r|]
    ensures forall i :: |r| <= i < |s| ==> IsJsWhitespace(s[i])
    ensures r == [] || !IsJsWhitespace(r[|r| - 1])
    decreases |s|
  {
    if |s| > 0 && IsJsWhitespace(s[|s| - 1]) then TrimEnd(s[..|s| - 1]) else s
  }

  /** `s.trim()`: the infix of `s` left after removing leading and trailing
      whitespace; it neither starts nor ends with whitespace, and everything
      removed is whitespace. */
  function Trim(s: string): (r: string)
    ensures |r| <= |s|
    ensures r == [] || (!IsJsWhitespace(r[0]) && !IsJsWhitespace(r[|r| - 1]))
    ensures var lead := |s| - |TrimStart(s)|;
      && lead + |r| <= |s|
      && r == s[lead..lead + |r|]
      && (forall i :: 0 <= i < lead ==> IsJsWhitespace(s[i]))
      && (forall i :: lead + |r| <= i < |s| ==> IsJsWhitespace(s[i]))
  {
    TrimEnd(TrimStart(s))
  }

  /** A string with no whitespace at either end is its own trim. */
  lemma {:induction false} TrimUnpadded(s: string)
    requires s == [] || (!IsJsWhitespace(s[0]) && !IsJsWhitespace(s[|s| - 1]))
    ensures Trim(s) == s
  {
  }

  /** Trimming twice is trimming once. */
  lemma TrimIdempotent(s: string)
    ensures Trim(Trim(s)) == Trim(s)
  {
    TrimUnpadded(Trim(s));
  }

  // ---------------------------------------------------------------------
  // Number rendering of integers
  // ---------------------------------------------------------------------

  predicate IsDigit(c: char) {
    '0' <= c <= '9'
  }

  function DigitChar(d: nat): (c: char)
    requires d < 10
    ensures IsDigit(c)
  {
    "0123456789"[d]
  }

  function DigitValue(c: char): (d: nat)
    requires IsDigit(c)
    ensures d < 10 && DigitChar(d) == c
  {
    (c as int) - ('0' as int)
  }

  /** The decimal digits of `n`, without leading zeros. */
  function NatToString(n: nat): (r: string)
    ensures |r| > 0
    ensures forall i :: 0 <= i < |r| ==> IsDigit(r[i])
    decreases n
  {
    if n < 10 then [DigitChar(n)] else NatToString(n / 10) + [DigitChar(n % 10)]
  }

  /** `${n}` for an integer: a minus sign for negatives, then the exact
      decimal digits of the magnitude. This is what JavaScript prints for
      an integral Number of magnitude up to 2^53; beyond that not every
      integer is a Number, and JavaScript prints the shortest digits that
      round-trip, which can differ from the exact ones. */
  function IntToString(n: int): (r: string)
    ensures |r| > 0 && r[|r| - 1] != '-' && IsDigit(r[|r| - 1])
  {
    if n < 0 then "-" + NatToString(-n) else NatToString(n)
  }

  /** The value of a string of decimal digits. */
  function ParseDigits(s: string): nat
    requires forall i :: 0 <= i < |s| ==> IsDigit(s[i])
    decreases |s|
  {
    if |s| == 0 then 0 else ParseDigits(s[..|s| - 1]) * 10 + DigitValue(s[|s| - 1])
  }

  /** Reading the digits back gives the number that was rendered. */
  lemma {:induction false} NatToStringRoundTrip(n: nat)
    ensures ParseDigits(NatToString(n)) == n
    decreases n
  {
    if n >= 10 {
      NatToStringRoundTrip(n / 10);
      var r := NatToString(n);
      assert r[..|r| - 1] == NatToString(n / 10);
    }
  }
}
