/** The slice of Python's string handling the writers and the reader rely on:
    `str.strip()`, `str.split()` with no separator, `" ".join(...)`, `str()` of
    an integer and `int()` of a string. Strings are sequences of Unicode
    scalar values; a text line is a string without its line terminator. */
module Text {
  import opened Results

  /** Python's `str.isspace` on one character: the separators that
      `str.split()` and `str.strip()` remove. */
  predicate IsSpace(c: char) {
    var k := c as int;
    || k == 0x20
    || 0x09 <= k <= 0x0D
    || 0x1C <= k <= 0x1F
    || k == 0x85 || k == 0xA0 || k == 0x1680
    || 0x2000 <= k <= 0x200A
    || k == 0x2028 || k == 0x2029 || k == 0x202F || k == 0x205F || k == 0x3000
  }

  /** A nonempty string without whitespace: what `str.split()` produces. */
  predicate IsToken(s: string) {
    |s| > 0 && forall i :: 0 <= i < |s| ==> !IsSpace(s[i])
  }

  predicate AllSpace(s: string) {
    forall i :: 0 <= i < |s| ==> IsSpace(s[i])
  }

  // ---------------------------------------------------------------- strip

  function StripLeft(s: string): (r: string)
    ensures |r| <= |s|
  {
    if |s| > 0 && IsSpace(s[0]) then StripLeft(s[1..]) else s
  }

  function StripRight(s: string): (r: string)
    ensures |r| <= |s|
  {
    if |s| > 0 && IsSpace(s[|s| - 1]) then StripRight(s[..|s| - 1]) else s
  }

  /** `str.strip()`: `s` without its leading and trailing whitespace. */
  function Strip(s: string): (r: string)
    ensures |r| <= |s|
    ensures |r| > 0 ==> !IsSpace(r[0]) && !IsSpace(r[|r| - 1])
  {
    StripLeftFacts(s);
    StripRightFacts(StripLeft(s));
    StripRight(StripLeft(s))
  }

  /** `StripLeft` removes exactly the leading run of whitespace. */
  lemma {:induction false} StripLeftFacts(s: string)
    ensures StripLeft(s) == s[|s| - |StripLeft(s)|..]
    ensures AllSpace(s[..|s| - |StripLeft(s)|])
    ensures |StripLeft(s)| > 0 ==> !IsSpace(StripLeft(s)[0])
  {
    if |s| > 0 && IsSpace(s[0]) {
      StripLeftFacts(s[1..]);
      var r := StripLeft(s);
      assert s[..|s| - |r|] == [s[0]] + s[1..][..|s| - 1 - |r|];
    }
  }

  /** `StripRight` removes exactly the trailing run of whitespace. */
  lemma {:induction false} StripRightFacts(s: string)
    ensures StripRight(s) == s[..|StripRight(s)|]
    ensures AllSpace(s[|StripRight(s)|..])
    ensures |StripRight(s)| > 0 ==> !IsSpace(StripRight(s)[|StripRight(s)| - 1])
  {
    if |s| > 0 && IsSpace(s[|s| - 1]) {
      StripRightFacts(s[..|s| - 1]);
      var r := StripRight(s);
      assert s[|r|..] == s[..|s| - 1][|r|..] + [s[|s| - 1]];
    }
  }

  /** `Strip(s)` is the middle of `s`: whitespace on both sides of it,
      and neither end of it whitespace. */
  lemma StripFacts(s: string)
    ensures exists a, b :: 0 <= a <= b <= |s| && Strip(s) == s[a..b]
                             && AllSpace(s[..a]) && AllSpace(s[b..])
    ensures |Strip(s)| > 0 ==> !IsSpace(Strip(s)[0]) && !IsSpace(Strip(s)[|Strip(s)| - 1])
  {
    var l := StripLeft(s);
    StripLeftFacts(s);
    StripRightFacts(l);
    var a := |s| - |l|;
    var r := StripRight(l);
    var b := a + |r|;
    assert r == s[a..b];
    assert s[b..] == l[|r|..];
  }

  /** A string without surrounding whitespace is left alone by `Strip`. */
  lemma StripToken(s: string)
    requires IsToken(s)
    ensures Strip(s) == s
  {
  }

  // ---------------------------------------------------------------- split

  /** The longest whitespace-free prefix of `s`. */
  function TakeWord(s: string): (w: string)
    ensures |w| <= |s| && w == s[..|w|]
    ensures forall i :: 0 <= i < |w| ==> !IsSpace(w[i])
    ensures |w| < |s| ==> IsSpace(s[|w|])
  {
    if |s| == 0 || IsSpace(s[0]) then [] else [s[0]] + TakeWord(s[1..])
  }

  /** `str.split()` with no separator: the maximal runs of non-whitespace
      characters, in order; never an empty string. */
  function Split(s: string): (parts: seq<string>)
    ensures forall k :: 0 <= k < |parts| ==> IsToken(parts[k])
    decreases |s|
  {
    if |s| == 0 then []
    else if IsSpace(s[0]) then Split(s[1..])
    else
      var w := TakeWord(s);
      [w] + Split(s[|w|..])
  }

  /** `sep.join(parts)`. */
  function Join(sep: string, parts: seq<string>): string
  {
    if |parts| == 0 then ""
    else if |parts| == 1 then parts[0]
    else parts[0] + sep + Join(sep, parts[1..])
  }

  /** Splitting yields nothing exactly for a blank string. */
  lemma {:induction false} SplitEmpty(s: string)
    ensures Split(s) == [] <==> AllSpace(s)
    decreases |s|
  {
    if |s| > 0 && IsSpace(s[0]) {
      SplitEmpty(s[1..]);
      assert AllSpace(s) <==> AllSpace(s[1..]) by {
        assert forall i :: 0 < i < |s| ==> s[i] == s[1..][i - 1];
      }
    }
  }

  lemma {:induction false} TakeWordToken(t: string, rest: string)
    requires IsToken(t)
    requires |rest| == 0 || IsSpace(rest[0])
    ensures TakeWord(t + rest) == t
    decreases |t|
  {
    assert (t + rest)[1..] == t[1..] + rest;
    if |t| > 1 {
      TakeWordToken(t[1..], rest);
    }
  }

  /** A token followed by whitespace splits into the token and the split of
      what follows. */
  lemma SplitTokenThen(t: string, rest: string)
    requires IsToken(t)
    requires |rest| == 0 || IsSpace(rest[0])
    ensures Split(t + rest) == [t] + Split(rest)
  {
    TakeWordToken(t, rest);
    assert (t + rest)[|t|..] == rest;
  }

  /** Splitting undoes joining with single spaces. */
  lemma {:induction false} SplitJoin(ts: seq<string>)
    requires forall k :: 0 <= k < |ts| ==> IsToken(ts[k])
    ensures Split(Join(" ", ts)) == ts
  {
    if |ts| == 1 {
      SplitTokenThen(ts[0], "");
      assert ts[0] + "" == ts[0];
    } else if |ts| > 1 {
      var rest := " " + Join(" ", ts[1..]);
      assert Join(" ", ts) == ts[0] + rest;
      SplitTokenThen(ts[0], rest);
      assert rest[1..] == Join(" ", ts[1..]);
      SplitJoin(ts[1..]);
    }
  }

  /** The shape of a LAD line, `"<count> <id> <id> ..."`, splits back into
      its leading token and its ids, also when there are no ids. */
  lemma SplitHeadJoin(t: string, ts: seq<string>)
    requires IsToken(t)
    requires forall k :: 0 <= k < |ts| ==> IsToken(ts[k])
    ensures Split(t + " " + Join(" ", ts)) == [t] + ts
  {
    var u := Join(" ", ts);
    var rest := " " + u;
    assert t + " " + u == t + rest;
    assert IsSpace(rest[0]);
    SplitTokenThen(t, rest);
    assert rest[1..] == u;
    assert Split(rest) == Split(u);
    SplitJoin(ts);
  }

  lemma {:induction false} TakeWordSpaceAfter(s: string, c: char)
    requires IsSpace(c)
    ensures TakeWord(s + [c]) == TakeWord(s)
    decreases |s|
  {
    if |s| > 0 && !IsSpace(s[0]) {
      assert (s + [c])[1..] == s[1..] + [c];
      TakeWordSpaceAfter(s[1..], c);
    }
  }

  /** A trailing whitespace character does not change the split. */
  lemma {:induction false} SplitSpaceAfter(s: string, c: char)
    requires IsSpace(c)
    ensures Split(s + [c]) == Split(s)
    decreases |s|
  {
    if |s| == 0 {
      assert Split([c]) == Split([c][1..]);
    } else if IsSpace(s[0]) {
      assert (s + [c])[1..] == s[1..] + [c];
      SplitSpaceAfter(s[1..], c);
    } else {
      TakeWordSpaceAfter(s, c);
      var w := TakeWord(s);
      assert (s + [c])[|w|..] == s[|w|..] + [c];
      SplitSpaceAfter(s[|w|..], c);
    }
  }

  lemma {:induction false} SplitSpacesAfter(s: string, sp: string)
    requires AllSpace(sp)
    ensures Split(s + sp) == Split(s)
    decreases |sp|
  {
    if |sp| > 0 {
      var init := sp[..|sp| - 1];
      assert AllSpace(init);
      assert sp == init + [sp[|sp| - 1]];
      assert s + sp == (s + init) + [sp[|sp| - 1]];
      SplitSpaceAfter(s + init, sp[|sp| - 1]);
      SplitSpacesAfter(s, init);
    } else {
      assert s + sp == s;
    }
  }

  lemma {:induction false} SplitSpacesBefore(sp: string, s: string)
    requires AllSpace(sp)
    ensures Split(sp + s) == Split(s)
    decreases |sp|
  {
    if |sp| > 0 {
      assert (sp + s)[1..] == sp[1..] + s;
      SplitSpacesBefore(sp[1..], s);
    } else {
      assert sp + s == s;
    }
  }

  /** `line.strip().split()` is `line.split()`. */
  lemma SplitStrip(s: string)
    ensures Split(Strip(s)) == Split(s)
  {
    var l := StripLeft(s);
    StripLeftFacts(s);
    StripRightFacts(l);
    assert s == s[..|s| - |l|] + l;
    SplitSpacesBefore(s[..|s| - |l|], l);
    var r := StripRight(l);
    assert l == r + l[|r|..];
    SplitSpacesAfter(r, l[|r|..]);
  }

  // ---------------------------------------------------------------- numbers

  predicate IsDigit(c: char) {
    '0' <= c <= '9'
  }

  function DigitChar(d: int): (c: char)
    requires 0 <= d < 10
    ensures IsDigit(c)
  {
    (('0' as int) + d) as char
  }

  function DigitValue(c: char): int
    requires IsDigit(c)
  {
    (c as int) - ('0' as int)
  }

  /** `str(n)` for a natural number: its decimal digits, most significant
      first, without leading zeros. */
  function NatToString(n: nat): (s: string)
    ensures |s| > 0 && forall i :: 0 <= i < |s| ==> IsDigit(s[i])
    ensures |s| > 1 ==> s[0] != '0'
  {
    if n < 10 then [DigitChar(n)] else NatToString(n / 10) + [DigitChar(n % 10)]
  }

  /** `str(i)` for any integer: a minus sign before the digits of a
      negative number. */
  function IntToString(i: int): (s: string)
    ensures IsToken(s)
  {
    if i < 0 then "-" + NatToString(-i) else NatToString(i)
  }

  /** Digits with single underscores between them: the body of a decimal
      literal that `int()` accepts. */
  predicate WellFormedDigits(s: string) {
    && |s| > 0
    && IsDigit(s[0])
    && IsDigit(s[|s| - 1])
    && (forall i :: 0 <= i < |s| ==> IsDigit(s[i]) || s[i] == '_')
    && (forall i :: 0 <= i < |s| - 1 ==> IsDigit(s[i]) || IsDigit(s[i + 1]))
  }

  /** The decimal value of digits, underscores skipped. */
  function DigitsValue(s: string): nat
    requires forall i :: 0 <= i < |s| ==> IsDigit(s[i]) || s[i] == '_'
  {
    if |s| == 0 then 0
    else if s[|s| - 1] == '_' then DigitsValue(s[..|s| - 1])
    else 10 * DigitsValue(s[..|s| - 1]) + DigitValue(s[|s| - 1])
  }

  /** `int()` of a string already stripped: an optional sign, then
      well-formed decimal digits; anything else is a `ValueError` (`None`). */
  function ParseToken(t: string): (r: Option<int>)
    ensures r.Some? ==> |t| > 0 && forall i :: 0 < i < |t| ==> IsDigit(t[i]) || t[i] == '_'
    ensures r.Some? ==> IsToken(t)
  {
    if |t| > 0 && (t[0] == '+' || t[0] == '-') then
      var body := t[1..];
      if WellFormedDigits(body) then
        var v: int := DigitsValue(body);
        Some(if t[0] == '-' then -v else v)
      else None
    else if WellFormedDigits(t) then Some(DigitsValue(t))
    else None
  }

  /** `int(s)` for a string: surrounding whitespace is ignored. */
  function ParseInt(s: string): (r: Option<int>)
    ensures r.Some? ==> IsToken(Strip(s))
  {
    ParseToken(Strip(s))
  }

  /** `int()` accepts a line only when it holds exactly one word: the
      stripped line is the only token `split()` finds. */
  lemma ParseIntOneToken(s: string)
    ensures ParseInt(s).Some? ==> Split(s) == [Strip(s)]
  {
    if ParseInt(s).Some? {
      SplitStrip(s);
      SplitTokenThen(Strip(s), "");
      assert Strip(s) + "" == Strip(s);
    }
  }

  lemma {:induction false} DigitsValueOfNat(n: nat)
    ensures DigitsValue(NatToString(n)) == n
  {
    if n >= 10 {
      var s := NatToString(n);
      assert s[..|s| - 1] == NatToString(n / 10);
      DigitsValueOfNat(n / 10);
    }
  }

  lemma NatToStringWellFormed(n: nat)
    ensures WellFormedDigits(NatToString(n))
  {
  }

  lemma ParseIntNegative(n: nat)
    requires n > 0
    ensures ParseInt("-" + NatToString(n)) == Some(-(n as int))
  {
    var body := NatToString(n);
    var s := "-" + body;
    assert s[1..] == body;
    assert s[0] == '-';
    NatToStringWellFormed(n);
    DigitsValueOfNat(n);
    assert IsToken(s) by {
      assert s == IntToString(-(n as int));
    }
    StripToken(s);
  }

  lemma ParseIntNatural(n: nat)
    ensures ParseInt(NatToString(n)) == Some(n)
  {
    var s := NatToString(n);
    assert IsToken(s) by {
      assert s == IntToString(n);
    }
    StripToken(s);
    NatToStringWellFormed(n);
    DigitsValueOfNat(n);
  }

  /** `int(str(i)) == i`. */
  lemma ParseIntToString(i: int)
    ensures ParseInt(IntToString(i)) == Some(i)
  {
    if i < 0 {
      ParseIntNegative(-i);
    } else {
      ParseIntNatural(i);
    }
  }

  /** `str` applied to every element. */
  function ShowInts(xs: seq<int>): (ts: seq<string>)
    ensures |ts| == |xs|
    ensures forall k :: 0 <= k < |xs| ==> ts[k] == IntToString(xs[k])
  {
    seq(|xs|, k requires 0 <= k < |xs| => IntToString(xs[k]))
  }

  /** `list(map(int, ts))`: every token parsed, or `None` at the first that
      is not an integer. */
  function ParseInts(ts: seq<string>): (r: Option<seq<int>>)
    ensures r.Some? <==> forall k :: 0 <= k < |ts| ==> ParseInt(ts[k]).Some?
    ensures r.Some? ==> |r.value| == |ts|
    ensures r.Some? ==> forall k :: 0 <= k < |ts| ==> Some(r.value[k]) == ParseInt(ts[k])
  {
    if |ts| == 0 then Some([])
    else
      match ParseInt(ts[0])
      case None => None
      case Some(x) =>
        match ParseInts(ts[1..])
        case None => None
        case Some(rest) => Some([x] + rest)
  }

  /** Parsing the printed form of a list of integers gives the list back. */
  lemma ParseShowInts(xs: seq<int>)
    ensures ParseInts(ShowInts(xs)) == Some(xs)
  {
    var ts := ShowInts(xs);
    forall k | 0 <= k < |xs|
      ensures ParseInt(ts[k]) == Some(xs[k])
    {
      ParseIntToString(xs[k]);
    }
    var r := ParseInts(ts);
    assert r.Some?;
    assert r.value == xs;
  }
}
