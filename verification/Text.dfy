/** The C string calls that src/util.c and src/timer.c rest on: strtok_r, strtol, snprintf of
    decimal numbers, and the two bounded copies of src/util.c. A C string is its characters
    before the terminating zero. */
module Text {

  datatype Option<+T> = None | Some(value: T)

  // ---- strtok_r ----

  /** How many characters come before the first d. */
  function Span(s: string, d: char): (n: nat)
    ensures n <= |s| && (n < |s| ==> s[n] == d) && d !in s[..n]
  {
    if s == "" || s[0] == d then 0 else 1 + Span(s[1..], d)
  }

  /** All the tokens of s: the pieces between d's, empty ones skipped. */
  function Tokens(s: string, d: char): (toks: seq<string>)
    ensures forall i :: 0 <= i < |toks| ==> toks[i] != "" && d !in toks[i]
    decreases |s|
  {
    if s == "" then []
    else if s[0] == d then Tokens(s[1..], d)
    else
      var n := Span(s, d);
      [s[..n]] + Tokens(s[n..], d)
  }

  /** The parts with a d between neighbours. */
  function Join(parts: seq<string>, d: char): string {
    if parts == [] then ""
    else if |parts| == 1 then parts[0]
    else parts[0] + [d] + Join(parts[1..], d)
  }

  lemma {:induction false} SpanOfFirst(a: string, rest: string, d: char)
    requires d !in a && (rest == "" || rest[0] == d)
    ensures Span(a + rest, d) == |a|
  {
    if a == "" {
      assert a + rest == rest;
    } else {
      assert (a + rest)[1..] == a[1..] + rest;
      SpanOfFirst(a[1..], rest, d);
    }
  }

  lemma FirstToken(a: string, rest: string, d: char)
    requires a != "" && d !in a && (rest == "" || rest[0] == d)
    ensures Tokens(a + rest, d) == [a] + Tokens(rest, d)
  {
    SpanOfFirst(a, rest, d);
    assert (a + rest)[..|a|] == a && (a + rest)[|a|..] == rest;
  }

  /** A delimiter anywhere parts the tokens before it from those after it. With TokenAlone this
      is all there is to know of splitting. */
  lemma {:induction false} TokensApart(a: string, b: string, d: char)
    ensures Tokens(a + [d] + b, d) == Tokens(a, d) + Tokens(b, d)
    decreases |a|
  {
    if a == "" {
      assert (a + [d] + b)[1..] == b;
    } else if a[0] == d {
      TokensApart(a[1..], b, d);
      assert (a + [d] + b)[1..] == a[1..] + [d] + b;
    } else {
      var n := Span(a, d);
      TokensApart(a[n..], b, d);
      WordInFront(a, n, b, d);
    }
  }

  lemma WordInFront(a: string, n: nat, b: string, d: char)
    requires a != "" && a[0] != d && n == Span(a, d)
    ensures Tokens(a, d) == [a[..n]] + Tokens(a[n..], d)
    ensures Tokens(a + [d] + b, d) == [a[..n]] + Tokens(a[n..] + [d] + b, d)
  {
    var word, rest := a[..n], a[n..];
    assert a + [d] + b == word + (rest + [d] + b);
    FirstToken(word, rest + [d] + b, d);
  }

  /** A string without the delimiter is one token, or none if it is empty. */
  lemma TokenAlone(s: string, d: char)
    requires d !in s
    ensures Tokens(s, d) == if s == "" then [] else [s]
  {
    if s != "" {
      FirstToken(s, "", d);
      assert s + "" == s;
    }
  }

  /** Splitting undoes joining, when no part is empty or holds the delimiter. */
  lemma {:induction false} TokensOfJoin(parts: seq<string>, d: char)
    requires forall i :: 0 <= i < |parts| ==> parts[i] != "" && d !in parts[i]
    ensures Tokens(Join(parts, d), d) == parts
  {
    if |parts| == 1 {
      FirstToken(parts[0], "", d);
      assert parts[0] + "" == parts[0];
    } else if parts != [] {
      var rest := [d] + Join(parts[1..], d);
      FirstToken(parts[0], rest, d);
      assert Join(parts, d) == parts[0] + rest;
      assert rest[1..] == Join(parts[1..], d);
      TokensOfJoin(parts[1..], d);
    }
  }

  lemma {:induction false} JoinSnoc(parts: seq<string>, p: string, d: char)
    ensures Join(parts + [p], d) == if parts == [] then p else Join(parts, d) + [d] + p
  {
    if |parts| > 1 {
      assert (parts + [p])[1..] == parts[1..] + [p];
      JoinSnoc(parts[1..], p, d);
    } else if |parts| == 1 {
      assert (parts + [p])[1..] == [p];
    }
  }

  // ---- decimal numbers ----

  predicate IsDigit(c: char) {
    '0' <= c <= '9'
  }

  function DigitValue(c: char): nat {
    if IsDigit(c) then c as nat - '0' as nat else 0
  }

  function DigitChar(v: nat): (c: char)
    requires v < 10
    ensures IsDigit(c) && DigitValue(c) == v
  {
    ('0' as nat + v) as char
  }

  ghost predicate AllDigits(s: string) {
    forall c :: c in s ==> IsDigit(c)
  }

  /** "%d" of a number that is not negative. */
  function Decimal(n: nat): (s: string)
    ensures s != "" && AllDigits(s)
  {
    if n < 10 then [DigitChar(n)] else Decimal(n / 10) + [DigitChar(n % 10)]
  }

  /** "%02d" of a number that is not negative. */
  function Decimal2(n: nat): (s: string)
    ensures s != "" && AllDigits(s)
  {
    if n < 10 then "0" + Decimal(n) else Decimal(n)
  }

  // ---- strtol, base 10, on a 32-bit long ----

  const LONG_MAX := 0x7fff_ffff

  function SkipSpaces(s: string): string {
    if s != "" && IsSpace(s[0]) then SkipSpaces(s[1..]) else s
  }

  function DigitSpan(s: string): (n: nat)
    ensures n <= |s| && forall i :: 0 <= i < n ==> IsDigit(s[i])
  {
    if s == "" || !IsDigit(s[0]) then 0 else 1 + DigitSpan(s[1..])
  }

  /** The value of digits s read on from v. */
  function Value(s: string, v: nat): nat
  {
    if s == "" then v else Value(s[1..], 10 * v + DigitValue(s[0]))
  }

  function Saturated(negative: bool, v: nat): int {
    if negative then (if v > LONG_MAX + 1 then -(LONG_MAX as int) - 1 else -(v as int))
    else if v > LONG_MAX then LONG_MAX else v
  }

  predicate Signed(t: string, sign: char) {
    t != "" && t[0] == sign
  }

  function AfterSign(t: string): string {
    if Signed(t, '-') || Signed(t, '+') then t[1..] else t
  }

  /** str_to_int: None when no number starts the string. Out of range, strtol saturates. */
  function StrToInt(s: string): Option<int> {
    var t := SkipSpaces(s);
    var u := AfterSign(t);
    var n := DigitSpan(u);
    if n == 0 then None else Some(Saturated(Signed(t, '-'), Value(u[..n], 0)))
  }

  /** No needless zero is printed. */
  lemma {:induction false} DecimalIsShortest(n: nat)
    ensures n > 0 ==> Decimal(n)[0] != '0'
    ensures n == 0 ==> Decimal(n) == "0"
  {
    if n >= 10 {
      DecimalIsShortest(n / 10);
      assert Decimal(n)[0] == Decimal(n / 10)[0];
    }
  }

  /** And with "%02d" just what two digits take. */
  lemma TwoDigits(n: nat)
    ensures n < 10 ==> |Decimal2(n)| == 2 && Decimal2(n)[0] == '0' && Decimal2(n)[1..] == Decimal(n)
    ensures n >= 10 ==> Decimal2(n) == Decimal(n) && |Decimal2(n)| >= 2
  {
  }

  lemma {:induction false} ValueAppend(a: string, b: string, v: nat)
    requires AllDigits(a) && AllDigits(b)
    ensures Value(a + b, v) == Value(b, Value(a, v))
  {
    if a == "" {
      assert a + b == b;
    } else {
      assert (a + b)[1..] == a[1..] + b;
      ValueAppend(a[1..], b, 10 * v + DigitValue(a[0]));
    }
  }

  lemma {:induction false} ValueOfDecimal(n: nat)
    ensures Value(Decimal(n), 0) == n
  {
    if n >= 10 {
      ValueOfDecimal(n / 10);
      var d := [DigitChar(n % 10)];
      ValueAppend(Decimal(n / 10), d, 0);
      assert d[1..] == "";
    }
  }

  lemma {:induction false} DigitSpanOfDigits(s: string)
    requires AllDigits(s)
    ensures DigitSpan(s) == |s|
  {
    if s != "" {
      assert s[0] in s;
      DigitSpanOfDigits(s[1..]);
    }
  }

  lemma StrToIntOfDigits(s: string)
    requires s != "" && AllDigits(s)
    ensures StrToInt(s) == Some(Saturated(false, Value(s, 0)))
  {
    assert s[0] in s;
    DigitSpanOfDigits(s);
    assert s[..|s|] == s;
  }

  /** Reading back a printed number, with or without a leading zero. */
  lemma StrToIntOfDecimal(n: nat)
    ensures var v := Saturated(false, n);
            StrToInt(Decimal(n)) == Some(v) && StrToInt(Decimal2(n)) == Some(v) && (n <= LONG_MAX ==> v == n)
  {
    ValueOfDecimal(n);
    StrToIntOfDigits(Decimal(n));
    StrToIntOfDigits(Decimal2(n));
    assert Decimal2(n) == "0" + Decimal(n) ==> Decimal2(n)[1..] == Decimal(n);
  }

  predicate IsSpace(c: char) {
    c in " \t\n\r" + [11 as char, 12 as char]
  }

  lemma {:induction false} SpacesSkipped(ws: string, t: string)
    requires (forall i :: 0 <= i < |ws| ==> IsSpace(ws[i])) && (t == "" || !IsSpace(t[0]))
    ensures SkipSpaces(ws + t) == t
  {
    if ws == "" {
      assert ws + t == t;
    } else {
      assert (ws + t)[1..] == ws[1..] + t;
      SpacesSkipped(ws[1..], t);
    }
  }

  lemma {:induction false} DigitsSpanned(digits: string, rest: string)
    requires AllDigits(digits) && (rest == "" || !IsDigit(rest[0]))
    ensures DigitSpan(digits + rest) == |digits|
  {
    if digits == "" {
      assert digits + rest == rest;
    } else {
      assert digits[0] in digits && (digits + rest)[1..] == digits[1..] + rest;
      DigitsSpanned(digits[1..], rest);
    }
  }

  /** What is read of blanks, a sign, digits and more text: the number, cut to a long. Without a
      digit there is no number. */
  lemma StrToIntOfText(ws: string, sign: string, digits: string, rest: string)
    requires forall i :: 0 <= i < |ws| ==> IsSpace(ws[i])
    requires sign == "" || sign == "+" || sign == "-"
    requires AllDigits(digits) && (rest == "" || !IsDigit(rest[0]))
    requires digits == "" && sign == "" && rest != "" ==> !IsSpace(rest[0]) && rest[0] != '+' && rest[0] != '-'
    ensures var v := Value(digits, 0);
            StrToInt(ws + (sign + digits + rest)) ==
            if digits == "" then None
            else if sign == "-" then Some(if v > LONG_MAX + 1 then -(LONG_MAX as int) - 1 else -(v as int))
            else Some(if v > LONG_MAX then LONG_MAX else v)
  {
    SignRead(sign, digits, rest);
    SpacesSkipped(ws, sign + digits + rest);
    DigitsSpanned(digits, rest);
    assert (digits + rest)[..|digits|] == digits;
  }

  lemma SignRead(sign: string, digits: string, rest: string)
    requires sign == "" || sign == "+" || sign == "-"
    requires AllDigits(digits)
    requires digits == "" && sign == "" && rest != "" ==> !IsSpace(rest[0]) && rest[0] != '+' && rest[0] != '-'
    ensures var t := sign + digits + rest;
            && (t == "" || !IsSpace(t[0]))
            && AfterSign(t) == digits + rest
            && (Signed(t, '-') <==> sign == "-")
  {
    var t := sign + digits + rest;
    if sign == "" {
      assert t == digits + rest;
      if digits != "" {
        assert t[0] == digits[0] && digits[0] in digits;
      } else {
        assert t == rest;
      }
    } else {
      assert t[0] == sign[0] && t[1..] == digits + rest;
    }
  }

  lemma {:induction false} SkipSpacesKeeps(s: string)
    ensures forall c :: c in SkipSpaces(s) ==> c in s
  {
    if s != "" && SkipSpaces(s) != s {
      SkipSpacesKeeps(s[1..]);
    }
  }

  /** Without a minus sign the number is not negative. */
  lemma StrToIntNotNegative(s: string)
    requires '-' !in s
    ensures StrToInt(s).Some? ==> StrToInt(s).value >= 0
  {
    SkipSpacesKeeps(s);
    var t := SkipSpaces(s);
    assert t != "" ==> t[0] in t;
  }

  // ---- bounded copies ----

  /** What of s a buffer of `size` bytes holds. */
  function Fit(s: string, size: nat): string
    requires size >= 1
  {
    if |s| <= size - 1 then s else s[..size - 1]
  }

  /** strncatenate into a buffer of `size` bytes that holds dst. */
  function StrNCatenate(dst: string, src: string, size: nat): string
    requires size >= 1
  {
    if size <= |dst| + 1 then dst else dst + Fit(src, size - |dst|)
  }

  /** A buffer holds the longest prefix that leaves a character free. */
  lemma FitIsLongest(s: string, size: nat)
    requires size >= 1
    ensures |Fit(s, size)| == (if |s| < size then |s| else size - 1) && Fit(s, size) == s[..|Fit(s, size)|]
  {
  }

  /** Appending to what a buffer holds gives what it would hold of the whole. */
  lemma CatenateFits(a: string, b: string, size: nat)
    requires size >= 1
    ensures StrNCatenate(Fit(a, size), b, size) == Fit(a + b, size)
  {
  }
}
