/**
  The pieces of Python's string built-ins the controller relies on:
  `str.strip()` with no argument, `str.split(sep)` on one character, and
  `int(s)` in base 10, together with the decimal rendering they invert.
  Only ASCII digits are treated as digits.
*/
module TextParsing {
  import opened Wrappers

  /** The characters `str.isspace()` accepts, which `strip()` and `int()` remove. */
  predicate IsSpace(c: char)
  {
    c == '\t' || c == '\n' || c == '\r' || c == ' ' ||
    c == '\U{000B}' || c == '\U{000C}' ||
    ('\U{001C}' <= c <= '\U{001F}') ||
    c == '\U{0085}' || c == '\U{00A0}' || c == '\U{1680}' ||
    ('\U{2000}' <= c <= '\U{200A}') ||
    c == '\U{2028}' || c == '\U{2029}' || c == '\U{202F}' || c == '\U{205F}' || c == '\U{3000}'
  }

  predicate AllSpace(s: string)
  {
    forall i :: 0 <= i < |s| ==> IsSpace(s[i])
  }

  /** Neither starts nor ends with whitespace. */
  predicate Trimmed(s: string)
  {
    s == [] || (!IsSpace(s[0]) && !IsSpace(s[|s| - 1]))
  }

  /** `s.lstrip()`: drops exactly the leading whitespace. */
  function TrimStart(s: string): (r: string)
    ensures |r| <= |s| && r == s[|s| - |r|..]
    ensures AllSpace(s[..|s| - |r|])
    ensures r == [] || !IsSpace(r[0])
  {
    if s != [] && IsSpace(s[0]) then
      var r := TrimStart(s[1..]);
      assert s[..|s| - |r|] == [s[0]] + s[1..][..|s| - 1 - |r|];
      r
    else s
  }

  /** `s.rstrip()`: drops exactly the trailing whitespace. */
  function TrimEnd(s: string): (r: string)
    ensures |r| <= |s| && r == s[..|r|]
    ensures AllSpace(s[|r|..])
    ensures r == [] || !IsSpace(r[|r| - 1])
  {
    if s != [] && IsSpace(s[|s| - 1]) then
      var r := TrimEnd(s[..|s| - 1]);
      assert s[|r|..] == s[..|s| - 1][|r|..] + [s[|s| - 1]];
      r
    else s
  }

  /** `s.strip()`. */
  function Strip(s: string): string
  {
    TrimEnd(TrimStart(s))
  }

  lemma {:induction false} TrimStartSpaces(pre: string, t: string)
    requires AllSpace(pre)
    requires t == [] || !IsSpace(t[0])
    ensures TrimStart(pre + t) == t
  {
    if pre != [] {
      assert (pre + t)[1..] == pre[1..] + t;
      TrimStartSpaces(pre[1..], t);
    }
  }

  lemma {:induction false} TrimEndSpaces(t: string, post: string)
    requires AllSpace(post)
    requires t == [] || !IsSpace(t[|t| - 1])
    ensures TrimEnd(t + post) == t
  {
    if post != [] {
      assert (t + post)[..|t + post| - 1] == t + post[..|post| - 1];
      TrimEndSpaces(t, post[..|post| - 1]);
    }
  }

  /**
    Stripping removes exactly the surrounding whitespace: a text that
    neither starts nor ends with whitespace comes back unchanged from any
    padding.
  */
  lemma StripPadded(pre: string, core: string, post: string)
    requires AllSpace(pre) && AllSpace(post)
    requires Trimmed(core)
    ensures Strip(pre + core + post) == core
  {
    if core == [] {
      assert pre + core + post == (pre + post) + [];
      TrimStartSpaces(pre + post, []);
    } else {
      assert pre + core + post == pre + (core + post);
      TrimStartSpaces(pre, core + post);
      TrimEndSpaces(core, post);
    }
  }

  /** Stripping twice is stripping once. */
  lemma StripIdempotent(s: string)
    ensures Strip(Strip(s)) == Strip(s)
  {
    var a := TrimStart(s);
    var t := TrimEnd(a);
    assert t == [] || t[0] == a[0];
    assert [] + t == t && t + [] == t;
    TrimStartSpaces([], t);
    TrimEndSpaces(t, []);
  }

  /** The position of the first `c` in `s`. */
  function IndexOf(s: string, c: char): (i: nat)
    requires c in s
    ensures i < |s| && s[i] == c && c !in s[..i]
  {
    if s[0] == c then 0
    else
      var j := IndexOf(s[1..], c);
      assert s[..j + 1] == [s[0]] + s[1..][..j];
      j + 1
  }

  /** The fields joined back together, `sep` between neighbours. */
  function JoinWith(parts: seq<string>, sep: char): string
  {
    if parts == [] then []
    else if |parts| == 1 then parts[0]
    else parts[0] + [sep] + JoinWith(parts[1..], sep)
  }

  /**
    `s.split(sep)`: the fields between separators, in order. There is
    always at least one field, no field holds the separator, and joining
    the fields with it gives back `s`.
  */
  function Split(s: string, sep: char): (parts: seq<string>)
    ensures |parts| >= 1
    ensures forall i :: 0 <= i < |parts| ==> sep !in parts[i]
    ensures JoinWith(parts, sep) == s
    decreases |s|
  {
    if sep in s then
      var i := IndexOf(s, sep);
      var rest := Split(s[i + 1..], sep);
      assert s == s[..i] + [sep] + s[i + 1..];
      [s[..i]] + rest
    else [s]
  }

  /** Splitting inverts joining, for fields that hold no separator. */
  lemma {:induction false} SplitJoinWith(parts: seq<string>, sep: char)
    requires |parts| >= 1
    requires forall i :: 0 <= i < |parts| ==> sep !in parts[i]
    ensures Split(JoinWith(parts, sep), sep) == parts
  {
    if |parts| > 1 {
      var s := JoinWith(parts, sep);
      var tail := JoinWith(parts[1..], sep);
      assert s == parts[0] + [sep] + tail;
      assert s[|parts[0]|] == sep;
      var i := IndexOf(s, sep);
      assert i == |parts[0]|;
      assert s[..i] == parts[0];
      assert s[i + 1..] == tail;
      SplitJoinWith(parts[1..], sep);
    }
  }

  predicate IsDigit(c: char)
  {
    '0' <= c <= '9'
  }

  function DigitValue(c: char): nat
    requires IsDigit(c)
  {
    (c as int) - ('0' as int)
  }

  function DigitChar(d: nat): (c: char)
    requires d < 10
    ensures IsDigit(c) && DigitValue(c) == d
  {
    ('0' as int + d) as char
  }

  predicate DigitsOrUnderscores(d: string)
  {
    forall i :: 0 <= i < |d| ==> IsDigit(d[i]) || d[i] == '_'
  }

  /** The grammar of the digits of a base-10 `int()` literal: digits, with single underscores only between two digits. */
  predicate ValidDigits(d: string)
  {
    |d| > 0 && IsDigit(d[0]) && IsDigit(d[|d| - 1]) && DigitsOrUnderscores(d) &&
    forall i :: 0 <= i < |d| - 1 ==> d[i] == '_' ==> IsDigit(d[i + 1])
  }

  /** The value of a digit string, underscores ignored, read left to right. */
  function DigitsValue(d: string): nat
    requires DigitsOrUnderscores(d)
  {
    if d == [] then 0
    else if d[|d| - 1] == '_' then DigitsValue(d[..|d| - 1])
    else 10 * DigitsValue(d[..|d| - 1]) + DigitValue(d[|d| - 1])
  }

  /** An optional sign and a valid digit string, else `None`. */
  function ParseSigned(t: string): (r: Option<int>)
    ensures t == [] ==> r.None?
    ensures r.Some? && r.value < 0 ==> t[0] == '-'
  {
    if t != [] && (t[0] == '+' || t[0] == '-') then
      var d := t[1..];
      if ValidDigits(d) then
        var v: int := DigitsValue(d);
        Some(if t[0] == '-' then -v else v)
      else None
    else if ValidDigits(t) then Some(DigitsValue(t))
    else None
  }

  /**
    `int(s)`: surrounding whitespace is ignored; what is left is an
    optional sign and a valid digit string, else `ValueError` (`None`).
  */
  function ParseInt(s: string): Option<int>
  {
    ParseSigned(Strip(s))
  }

  /** `int(s.strip())` is `int(s)`. */
  lemma ParseIntIgnoresStrip(s: string)
    ensures ParseInt(Strip(s)) == ParseInt(s)
  {
    StripIdempotent(s);
  }

  /** `str(n)` for a natural number: its decimal digits, most significant first. */
  function ShowNat(n: nat): (s: string)
    ensures |s| > 0 && forall i :: 0 <= i < |s| ==> IsDigit(s[i])
  {
    if n < 10 then [DigitChar(n)] else ShowNat(n / 10) + [DigitChar(n % 10)]
  }

  /** `str(n)`. */
  function ShowInt(n: int): (s: string)
    ensures |s| > 0
  {
    if n < 0 then "-" + ShowNat(-n) else ShowNat(n)
  }

  /** Reading the digits `ShowNat` writes gives back the number. */
  lemma {:induction false} DigitsValueShowNat(n: nat)
    ensures DigitsValue(ShowNat(n)) == n
  {
    if n >= 10 {
      var s := ShowNat(n);
      assert s[..|s| - 1] == ShowNat(n / 10);
      DigitsValueShowNat(n / 10);
    }
  }

  lemma ShowNatValid(n: nat)
    ensures ValidDigits(ShowNat(n))
    ensures ',' !in ShowNat(n)
  {
    var s := ShowNat(n);
    assert forall i :: 0 <= i < |s| - 1 ==> s[i] != '_';
  }

  lemma ShowIntHasNo(n: int, c: char)
    requires c != '-' && !IsDigit(c)
    ensures c !in ShowInt(n)
  {
  }

  /** `str(n)` has no surrounding whitespace to strip. */
  lemma StripShowInt(n: int)
    ensures Trimmed(ShowInt(n))
    ensures Strip(ShowInt(n)) == ShowInt(n)
    ensures ',' !in ShowInt(n)
  {
    var s := ShowInt(n);
    ShowNatValid(if n < 0 then -n else n);
    assert !IsSpace(s[0]) && !IsSpace(s[|s| - 1]);
    assert [] + s + [] == s;
    StripPadded([], s, []);
  }

  /** `int(str(n)) == n`, with any whitespace around the digits. */
  lemma ParseShowInt(pre: string, n: int, post: string)
    requires AllSpace(pre) && AllSpace(post)
    ensures ParseInt(pre + ShowInt(n) + post) == Some(n)
  {
    var s := ShowInt(n);
    StripShowInt(n);
    StripPadded(pre, s, post);
    ParseSignedShowInt(n);
  }

  lemma ParseSignedShowInt(n: int)
    ensures ParseSigned(ShowInt(n)) == Some(n)
  {
    var s := ShowInt(n);
    var m: nat := if n < 0 then -n else n;
    ShowNatValid(m);
    DigitsValueShowNat(m);
    if n < 0 {
      assert s[0] == '-' && s[1..] == ShowNat(m);
    } else {
      assert s == ShowNat(m) && IsDigit(s[0]);
    }
  }
}
