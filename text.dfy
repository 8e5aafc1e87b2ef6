/** The string operations the handlers rely on, with JavaScript's meaning:
    String.prototype.trim, decimal rendering with padStart, the regular
    expression /^\d{4}-\d{2}-\d{2}$/, Number() on decimal text and
    String.prototype.split with a one-character separator. */
module Text {
  import opened Common

  /** The WhiteSpace and LineTerminator characters that trim() removes. */
  predicate IsJsSpace(c: char)
  {
    c == ' ' || c == '\t' || c == '\n' || c == '\r' || c == '\U{000B}' || c == '\U{000C}'
    || c == '\U{00A0}' || c == '\U{1680}' || ('\U{2000}' <= c <= '\U{200A}')
    || c == '\U{2028}' || c == '\U{2029}' || c == '\U{202F}' || c == '\U{205F}'
    || c == '\U{3000}' || c == '\U{FEFF}'
  }

  /** `s` with its leading white space removed. */
  function TrimStart(s: string): (r: string)
    ensures |r| <= |s| && r == s[|s| - |r|..]
    ensures forall i :: 0 <= i < |s| - |r| ==> IsJsSpace(s[i])
    ensures r == [] || !IsJsSpace(r[0])
  {
    if s != [] && IsJsSpace(s[0]) then TrimStart(s[1..]) else s
  }

  /** `s` with its trailing white space removed. */
  function TrimEnd(s: string): (r: string)
    ensures |r| <= |s| && r == s[..|r|]
    ensures forall i :: |r| <= i < |s| ==> IsJsSpace(s[i])
    ensures r == [] || !IsJsSpace(r[|r| - 1])
  {
    if s != [] && IsJsSpace(s[|s| - 1]) then TrimEnd(s[..|s| - 1]) else s
  }

  /** String.prototype.trim: no white space is left at either end, and
      nothing but white space is dropped (see TrimSlice). */
  function Trim(s: string): (r: string)
    ensures |r| <= |s|
    ensures r == [] || (!IsJsSpace(r[0]) && !IsJsSpace(r[|r| - 1]))
  {
    var t := TrimStart(s);
    var r := TrimEnd(t);
    assert r == [] || r[0] == t[0];
    r
  }

  /** trim() keeps a contiguous slice of `s`. */
  lemma TrimKeepsSlice(s: string)
    ensures var k := |s| - |TrimStart(s)|; Trim(s) == s[k..k + |Trim(s)|]
  {
    var t := TrimStart(s);
    var k := |s| - |t|;
    var r := TrimEnd(t);
    assert t == s[k..] && r == t[..|r|];
  }

  /** What trim() drops after the slice it keeps is white space. */
  lemma TrimDropsSpaceAfter(s: string)
    ensures forall i :: |s| - |TrimStart(s)| + |Trim(s)| <= i < |s| ==> IsJsSpace(s[i])
  {
    var t := TrimStart(s);
    var k := |s| - |t|;
    var r := TrimEnd(t);
    forall i | k + |r| <= i < |s| ensures IsJsSpace(s[i]) {
      assert s[i] == t[i - k];
    }
  }

  /** trim() cuts a contiguous slice out of `s`, and everything it drops
      before and after that slice is white space. */
  lemma TrimSlice(s: string)
    ensures var k := |s| - |TrimStart(s)|; Trim(s) == s[k..k + |Trim(s)|]
    ensures forall i :: 0 <= i < |s| - |TrimStart(s)| ==> IsJsSpace(s[i])
    ensures forall i :: |s| - |TrimStart(s)| + |Trim(s)| <= i < |s| ==> IsJsSpace(s[i])
  {
    TrimKeepsSlice(s);
    TrimDropsSpaceAfter(s);
  }

  /** A string with no white space at either end is its own trim. */
  lemma TrimNoSpace(s: string)
    requires s == [] || (!IsJsSpace(s[0]) && !IsJsSpace(s[|s| - 1]))
    ensures Trim(s) == s
  {
    assert TrimStart(s) == s;
  }

  lemma TrimIdempotent(s: string)
    ensures Trim(Trim(s)) == Trim(s)
  {
    TrimSlice(s);
    TrimNoSpace(Trim(s));
  }

  /** The `\d` class of a JavaScript regular expression without the u flag. */
  predicate IsDigit(c: char)
  {
    '0' <= c <= '9'
  }

  predicate AllDigits(s: string)
  {
    forall i :: 0 <= i < |s| ==> IsDigit(s[i])
  }

  /** /^\d{4}-\d{2}-\d{2}$/.test(s) */
  predicate IsDateShape(s: string)
    ensures IsDateShape(s) <==>
      |s| == 10 && s[4] == '-' && s[7] == '-' && forall i :: 0 <= i < 10 && i != 4 && i != 7 ==> IsDigit(s[i])
  {
    |s| == 10 && AllDigits(s[..4]) && s[4] == '-' && AllDigits(s[5..7]) && s[7] == '-' && AllDigits(s[8..])
  }

  function DigitChar(d: nat): (c: char)
    requires d < 10
    ensures IsDigit(c)
  {
    "0123456789"[d]
  }

  function DigitValue(c: char): (d: nat)
    requires IsDigit(c)
    ensures d < 10 && DigitChar(d) == c
  {
    (c as int - '0' as int) as nat
  }

  /** String(n) for a natural number: its decimal digits, no leading zero. */
  function Digits(n: nat): (r: string)
    ensures |r| >= 1 && AllDigits(r)
    ensures |r| > 1 ==> r[0] != '0'
  {
    if n < 10 then [DigitChar(n)] else Digits(n / 10) + [DigitChar(n % 10)]
  }

  /** The number a string of decimal digits denotes. */
  function DigitsValue(s: string): (n: nat)
    requires AllDigits(s)
  {
    if s == [] then 0 else DigitsValue(s[..|s| - 1]) * 10 + DigitValue(s[|s| - 1])
  }

  /** Reading back a rendered number gives the number. */
  lemma {:induction false} DigitsRoundTrip(n: nat)
    ensures DigitsValue(Digits(n)) == n
  {
    if n >= 10 {
      var d := Digits(n);
      assert d[..|d| - 1] == Digits(n / 10);
      DigitsRoundTrip(n / 10);
    }
  }

  /** The number of digits of String(n) for numbers of one to four digits. */
  lemma DigitsLength(n: nat)
    ensures n < 10 ==> |Digits(n)| == 1
    ensures 10 <= n < 100 ==> |Digits(n)| == 2
    ensures 1000 <= n < 10000 ==> |Digits(n)| == 4
  {
    if 1000 <= n < 10000 {
      assert |Digits(n / 10 / 10)| == 2;
    }
  }

  /** String(n).padStart(2, '0') */
  function Pad2(n: nat): (r: string)
    ensures AllDigits(r)
  {
    if n < 10 then "0" + Digits(n) else Digits(n)
  }

  lemma Pad2Length(n: nat)
    requires n < 100
    ensures |Pad2(n)| == 2
  {
    DigitsLength(n);
  }

  /** Number(s) for request text: white space around the number is ignored,
      blank text is 0, and decimal digits give their value. Every other text is
      NaN here (None). */
  function JsNumber(s: string): (r: Option<int>)
    ensures r.Some? ==> r.value >= 0
    ensures r.Some? <==> Trim(s) == [] || AllDigits(Trim(s))
    ensures Trim(s) == [] ==> r == Some(0)
  {
    var t := Trim(s);
    if t == [] then Some(0)
    else if AllDigits(t) then Some(DigitsValue(t))
    else None
  }

  /** Number(a) on a request value; None stands for NaN. */
  function ToNumber(a: NumArg): (r: Option<int>)
    ensures a.Num? ==> r == Some(a.n)
    ensures a.Txt? ==> r == JsNumber(a.s)
  {
    match a
    case NoNum => None
    case Num(n) => Some(n)
    case Txt(s) => JsNumber(s)
  }

  lemma JsNumberOfDigits(n: nat)
    ensures JsNumber(Digits(n)) == Some(n)
  {
    var d := Digits(n);
    assert !IsJsSpace(d[0]) && !IsJsSpace(d[|d| - 1]);
    TrimNoSpace(d);
    DigitsRoundTrip(n);
  }

  /** Leading white space is all that TrimStart removes. */
  lemma {:induction false} TrimStartSpaces(pre: string, t: string)
    requires forall i :: 0 <= i < |pre| ==> IsJsSpace(pre[i])
    requires t == [] || !IsJsSpace(t[0])
    ensures TrimStart(pre + t) == t
    decreases |pre|
  {
    if pre == [] {
      assert pre + t == t;
    } else {
      assert (pre + t)[1..] == pre[1..] + t;
      TrimStartSpaces(pre[1..], t);
    }
  }

  /** Trailing white space is all that TrimEnd removes. */
  lemma {:induction false} TrimEndSpaces(t: string, post: string)
    requires forall i :: 0 <= i < |post| ==> IsJsSpace(post[i])
    requires t == [] || !IsJsSpace(t[|t| - 1])
    ensures TrimEnd(t + post) == t
    decreases |post|
  {
    if post == [] {
      assert t + post == t;
    } else {
      var m := |post| - 1;
      assert (t + post)[..|t + post| - 1] == t + post[..m];
      TrimEndSpaces(t, post[..m]);
    }
  }

  /** Number() ignores white space around a decimal numeral. */
  lemma JsNumberPadded(pre: string, n: nat, post: string)
    requires forall i :: 0 <= i < |pre| ==> IsJsSpace(pre[i])
    requires forall i :: 0 <= i < |post| ==> IsJsSpace(post[i])
    ensures JsNumber(pre + Digits(n) + post) == Some(n)
  {
    var d := Digits(n);
    assert !IsJsSpace(d[0]) && !IsJsSpace(d[|d| - 1]);
    assert pre + d + post == pre + (d + post);
    TrimStartSpaces(pre, d + post);
    TrimEndSpaces(d, post);
    DigitsRoundTrip(n);
  }

  /** Number() of blank text (empty or only white space) is 0. */
  lemma JsNumberBlank(s: string)
    requires forall i :: 0 <= i < |s| ==> IsJsSpace(s[i])
    ensures JsNumber(s) == Some(0)
  {
    TrimStartSpaces(s, []);
    assert s + [] == s;
  }

  /** s.split(sep) for a one-character separator. */
  function Split(s: string, sep: char): (r: seq<string>)
    ensures |r| >= 1
    ensures forall i :: 0 <= i < |r| ==> sep !in r[i]
    ensures |r| == 1 <==> sep !in s
  {
    if s == [] then [""]
    else
      var rest := Split(s[1..], sep);
      assert s == [s[0]] + s[1..];
      if s[0] == sep then [""] + rest else [[s[0]] + rest[0]] + rest[1..]
  }

  /** parts.join(sep) */
  function Join(parts: seq<string>, sep: char): (r: string)
    requires |parts| >= 1
    ensures parts[0] <= r
    ensures |parts| > 1 ==> |r| > |parts[0]| && r[|parts[0]|] == sep
  {
    if |parts| == 1 then parts[0] else parts[0] + [sep] + Join(parts[1..], sep)
  }

  /** Splitting and joining again gives back the original text. */
  lemma {:induction false} JoinSplit(s: string, sep: char)
    ensures Join(Split(s, sep), sep) == s
  {
    if s != [] {
      JoinSplit(s[1..], sep);
      var rest := Split(s[1..], sep);
      if s[0] != sep {
        if |rest| == 1 {
          assert Split(s, sep) == [[s[0]] + rest[0]];
        } else {
          assert Split(s, sep)[1..] == rest[1..];
        }
      }
    }
  }

  lemma {:induction false} SplitNoSep(s: string, sep: char)
    requires sep !in s
    ensures Split(s, sep) == [s]
  {
    if s != [] {
      SplitNoSep(s[1..], sep);
      assert [s[0]] + s[1..] == s;
    }
  }

  lemma {:induction false} SplitAtFirst(a: string, b: string, sep: char)
    requires sep !in a
    ensures Split(a + [sep] + b, sep) == [a] + Split(b, sep)
  {
    if a == [] {
      assert a + [sep] + b == [sep] + b;
    } else {
      var s := a + [sep] + b;
      assert s[0] == a[0] && s[1..] == a[1..] + [sep] + b;
      SplitAtFirst(a[1..], b, sep);
      assert [a[0]] + a[1..] == a;
    }
  }

  /** Joining pieces free of the separator and splitting again gives back the pieces. */
  lemma {:induction false} SplitJoin(parts: seq<string>, sep: char)
    requires |parts| >= 1
    requires forall i :: 0 <= i < |parts| ==> sep !in parts[i]
    ensures Split(Join(parts, sep), sep) == parts
  {
    if |parts| == 1 {
      SplitNoSep(parts[0], sep);
    } else {
      SplitJoin(parts[1..], sep);
      SplitAtFirst(parts[0], Join(parts[1..], sep), sep);
    }
  }
}
