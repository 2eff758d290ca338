/** `parsePtNumber`: turns one loosely formatted Brazilian-locale cell
    ("R$ 1.234,56", "12,5", " 7 ") into a number, or into `null` when there
    is none. `null` and `undefined` are `None`; numbers are `real`. */
module PtNumber {
  import opened Wrappers
  import opened SeqFacts

  // ---------------------------------------------------------------------
  // Character classes and counting
  // ---------------------------------------------------------------------

  /** The characters `String.prototype.trim` removes: ECMAScript's
      WhiteSpace (tab, vertical tab, form feed, space, no-break space,
      byte-order mark and the Zs category) and LineTerminator. */
  predicate IsJsWhitespace(c: char) {
    var n := c as int;
    n == 0x09 || n == 0x0A || n == 0x0B || n == 0x0C || n == 0x0D || n == 0x20 ||
    n == 0xA0 || n == 0x1680 || (0x2000 <= n <= 0x200A) || n == 0x2028 ||
    n == 0x2029 || n == 0x202F || n == 0x205F || n == 0x3000 || n == 0xFEFF
  }

  predicate IsDigit(c: char) {
    '0' <= c <= '9'
  }

  /** The characters the strip step keeps: the class `[0-9,.-]`. */
  predicate IsNumericChar(c: char) {
    IsDigit(c) || c == ',' || c == '.' || c == '-'
  }

  predicate AllDigits(s: string) {
    forall i :: 0 <= i < |s| ==> IsDigit(s[i])
  }

  /** How many times `c` occurs in `s`. */
  function Count(s: string, c: char): (n: nat)
    ensures n == 0 <==> c !in s
    ensures n <= |s|
  {
    if s == [] then 0
    else
      assert c in s <==> s[0] == c || c in s[1..] by {
        assert s == [s[0]] + s[1..];
      }
      (if s[0] == c then 1 else 0) + Count(s[1..], c)
  }

  lemma {:induction false} CountAppend(a: string, b: string, c: char)
    ensures Count(a + b, c) == Count(a, c) + Count(b, c)
    decreases |a|
  {
    if a == [] {
      assert a + b == b;
    } else {
      var ab := a + b;
      assert ab[0] == a[0] && ab[1..] == a[1..] + b;
      CountAppend(a[1..], b, c);
    }
  }

  /** The position of the first `c` in `s`. */
  function IndexOf(s: string, c: char): (k: nat)
    requires c in s
    ensures k < |s| && s[k] == c
    ensures forall i :: 0 <= i < k ==> s[i] != c
  {
    if s[0] == c then 0
    else
      assert c in s[1..] by {
        var j :| 0 <= j < |s| && s[j] == c;
        assert s[1..][j - 1] == c;
      }
      1 + IndexOf(s[1..], c)
  }

  // ---------------------------------------------------------------------
  // The string rewrites
  // ---------------------------------------------------------------------

  /** Removes leading whitespace. */
  function TrimStart(s: string): (r: string)
    ensures |r| <= |s| && r == s[|s| - |r|..]
    ensures forall i :: 0 <= i < |s| - |r| ==> IsJsWhitespace(s[i])
    ensures r == [] || !IsJsWhitespace(r[0])
  {
    if s != [] && IsJsWhitespace(s[0]) then
      var r := TrimStart(s[1..]);
      TrimStartStep(s, r);
      r
    else s
  }

  lemma TrimStartStep(s: string, r: string)
    requires s != [] && IsJsWhitespace(s[0])
    requires |r| <= |s| - 1 && r == s[1..][|s| - 1 - |r|..]
    requires forall i :: 0 <= i < |s| - 1 - |r| ==> IsJsWhitespace(s[1..][i])
    ensures r == s[|s| - |r|..]
    ensures forall i :: 0 <= i < |s| - |r| ==> IsJsWhitespace(s[i])
  {
    forall i | 0 <= i < |s| - |r| ensures IsJsWhitespace(s[i]) {
      if i > 0 {
        assert s[i] == s[1..][i - 1];
      }
    }
  }

  /** Removes trailing whitespace. */
  function TrimEnd(s: string): (r: string)
    ensures |r| <= |s| && r == s[..|r|]
    ensures forall i :: |r| <= i < |s| ==> IsJsWhitespace(s[i])
    ensures r == [] || !IsJsWhitespace(r[|r| - 1])
  {
    if s != [] && IsJsWhitespace(s[|s| - 1]) then TrimEnd(s[..|s| - 1]) else s
  }

  /** `String.prototype.trim`. */
  function Trim(s: string): string {
    TrimEnd(TrimStart(s))
  }

  /** A string trims to nothing exactly when it is all whitespace. */
  lemma TrimEmptyIff(s: string)
    ensures Trim(s) == [] <==> forall i :: 0 <= i < |s| ==> IsJsWhitespace(s[i])
  {
    var t := TrimStart(s);
    if Trim(s) == [] {
      forall i | 0 <= i < |s| ensures IsJsWhitespace(s[i]) {
        if i >= |s| - |t| {
          assert s[i] == t[i - (|s| - |t|)];
        }
      }
    } else {
      var r := Trim(s);
      assert !IsJsWhitespace(r[0]);
      assert r[0] == t[0] == s[|s| - |t|];
    }
  }

  /** A string with no whitespace at all trims to itself. */
  lemma TrimNoWhitespace(s: string)
    requires forall i :: 0 <= i < |s| ==> !IsJsWhitespace(s[i])
    ensures Trim(s) == s
  {
    assert TrimStart(s) == s;
  }

  /** `s.replace(/[^0-9,.-]/g, '')`: keeps the numeric characters, in order. */
  function KeepNumeric(s: string): (r: string)
    ensures forall i :: 0 <= i < |r| ==> IsNumericChar(r[i])
    ensures |r| <= |s|
  {
    if s == [] then []
    else (if IsNumericChar(s[0]) then [s[0]] else []) + KeepNumeric(s[1..])
  }

  lemma {:induction false} KeepNumericAppend(a: string, b: string)
    ensures KeepNumeric(a + b) == KeepNumeric(a) + KeepNumeric(b)
    decreases |a|
  {
    if a == [] {
      assert a + b == b;
    } else {
      var head := if IsNumericChar(a[0]) then [a[0]] else [];
      assert KeepNumeric(a + b) == head + KeepNumeric(a[1..] + b) by {
        assert (a + b)[0] == a[0] && (a + b)[1..] == a[1..] + b;
      }
      KeepNumericAppend(a[1..], b);
      AppendAssoc(head, KeepNumeric(a[1..]), KeepNumeric(b));
    }
  }

  /** Stripping changes nothing in a string of numeric characters, and
      deletes a string without any. */
  lemma {:induction false} KeepNumericExtremes(s: string)
    ensures (forall i :: 0 <= i < |s| ==> IsNumericChar(s[i])) ==> KeepNumeric(s) == s
    ensures (forall i :: 0 <= i < |s| ==> !IsNumericChar(s[i])) ==> KeepNumeric(s) == []
    decreases |s|
  {
    if s != [] {
      KeepNumericExtremes(s[1..]);
      assert s == [s[0]] + s[1..];
    }
  }

  /** Stripping keeps every numeric character: each occurs as often in the
      result as in the input. */
  lemma {:induction false} KeepNumericCounts(s: string, c: char)
    requires IsNumericChar(c)
    ensures Count(KeepNumeric(s), c) == Count(s, c)
    decreases |s|
  {
    if s != [] {
      var head := if IsNumericChar(s[0]) then [s[0]] else [];
      CountAppend(head, KeepNumeric(s[1..]), c);
      KeepNumericCounts(s[1..], c);
    }
  }

  /** `s.replace(/\./g, '')` for `c == '.'`: deletes every `c`. */
  function RemoveAll(s: string, c: char): (r: string)
    ensures c !in r
    ensures forall x :: x in r <==> x in s && x != c
    ensures |r| == |s| - Count(s, c)
  {
    if s == [] then []
    else
      var rest := RemoveAll(s[1..], c);
      assert forall x :: x in s <==> x == s[0] || x in s[1..] by {
        assert s == [s[0]] + s[1..];
      }
      (if s[0] == c then [] else [s[0]]) + rest
  }

  lemma {:induction false} RemoveAllAppend(a: string, b: string, c: char)
    ensures RemoveAll(a + b, c) == RemoveAll(a, c) + RemoveAll(b, c)
    decreases |a|
  {
    if a == [] {
      assert a + b == b;
    } else {
      var head := if a[0] == c then [] else [a[0]];
      assert RemoveAll(a + b, c) == head + RemoveAll(a[1..] + b, c) by {
        assert (a + b)[0] == a[0] && (a + b)[1..] == a[1..] + b;
      }
      RemoveAllAppend(a[1..], b, c);
      AppendAssoc(head, RemoveAll(a[1..], c), RemoveAll(b, c));
    }
  }

  /** Deleting the only `c` of a string joins the parts around it. */
  lemma RemoveAllOne(x: string, y: string, c: char)
    requires c !in x && c !in y
    ensures RemoveAll(x + [c] + y, c) == x + y
  {
    RemoveAllAppend(x + [c], y, c);
    RemoveAllAppend(x, [c], c);
    RemoveAllAbsent(x, c);
    RemoveAllAbsent(y, c);
    assert RemoveAll([c], c) == [] by {
      assert [c][1..] == [];
    }
    AppendEmpty(x);
  }

  /** Deleting `c` leaves the count of every other character unchanged. */
  lemma {:induction false} RemoveAllCounts(s: string, c: char, d: char)
    requires d != c
    ensures Count(RemoveAll(s, c), d) == Count(s, d)
    decreases |s|
  {
    if s != [] {
      var head := if s[0] == c then [] else [s[0]];
      CountAppend(head, RemoveAll(s[1..], c), d);
      RemoveAllCounts(s[1..], c, d);
    }
  }

  /** `s.replace(c, d)` with a one-character string pattern: only the FIRST
      `c` becomes `d`. */
  function ReplaceFirst(s: string, c: char, d: char): (r: string)
    ensures |r| == |s|
    ensures c !in s ==> r == s
    ensures c in s ==> r[IndexOf(s, c)] == d &&
                       forall i :: 0 <= i < |s| && i != IndexOf(s, c) ==> r[i] == s[i]
  {
    if s == [] then []
    else if s[0] == c then [d] + s[1..]
    else
      assert c in s ==> c in s[1..] by {
        if c in s {
          var j :| 0 <= j < |s| && s[j] == c;
          assert s[1..][j - 1] == c;
        }
      }
      [s[0]] + ReplaceFirst(s[1..], c, d)
  }

  /** `ReplaceFirst` when the first `c` is known to stand at `k`. */
  lemma ReplaceFirstAt(s: string, c: char, d: char, k: nat)
    requires k < |s| && s[k] == c
    requires forall i :: 0 <= i < k ==> s[i] != c
    ensures ReplaceFirst(s, c, d) == s[..k] + [d] + s[k + 1..]
  {
    assert c in s;
    var j := IndexOf(s, c);
    assert j == k;
    var r := ReplaceFirst(s, c, d);
    assert r == s[..k] + [d] + s[k + 1..];
  }

  /** Replacing the first `c` by `d` moves one occurrence from `c` to `d`
      and leaves every other count alone. */
  lemma {:induction false} ReplaceFirstCounts(s: string, c: char, d: char, e: char)
    requires c != d
    ensures Count(ReplaceFirst(s, c, d), e) ==
            if c in s && e == c then Count(s, e) - 1
            else if c in s && e == d then Count(s, e) + 1
            else Count(s, e)
    decreases |s|
  {
    if s != [] {
      if s[0] == c {
        assert ReplaceFirst(s, c, d)[1..] == s[1..];
      } else {
        var r := ReplaceFirst(s, c, d);
        assert r[1..] == ReplaceFirst(s[1..], c, d);
        assert c in s <==> c in s[1..] by {
          assert s == [s[0]] + s[1..];
        }
        ReplaceFirstCounts(s[1..], c, d, e);
      }
    }
  }

  /** The separator step: with both `,` and `.` present the periods are
      thousands separators and go, and the first comma becomes the decimal
      point; with only `,` the first comma becomes the decimal point;
      otherwise nothing changes. */
  function Normalise(s: string): string {
    if ',' in s && '.' in s then ReplaceFirst(RemoveAll(s, '.'), ',', '.')
    else if ',' in s then ReplaceFirst(s, ',', '.')
    else s
  }

  // ---------------------------------------------------------------------
  // Number(s) on what is left
  // ---------------------------------------------------------------------

  /** `s` without its leading minus sign, if it has one. */
  function Unsigned(s: string): string {
    if |s| > 0 && s[0] == '-' then s[1..] else s
  }

  /** ECMAScript's StrUnsignedDecimalLiteral over digits and `.` (the only
      characters that can reach it): digits with at most one point and at
      least one digit, as in "12", "12.", ".5" and "12.5". */
  predicate IsUnsignedDecimal(t: string) {
    if '.' in t then
      var k := IndexOf(t, '.');
      |t| >= 2 && AllDigits(t[..k]) && AllDigits(t[k + 1..])
    else
      |t| >= 1 && AllDigits(t)
  }

  /** A non-empty string that `Number` turns into a finite number: an
      optional minus sign and an unsigned decimal. */
  predicate IsDecimalLiteral(s: string) {
    IsUnsignedDecimal(Unsigned(s))
  }

  function DigitValue(c: char): nat
    requires IsDigit(c)
  {
    c as int - '0' as int
  }

  /** The value of a string of decimal digits ("" counts as 0). */
  function DigitsValue(d: string): nat
    requires AllDigits(d)
  {
    if d == [] then 0 else 10 * DigitsValue(d[..|d| - 1]) + DigitValue(d[|d| - 1])
  }

  /** The value of the digits after a decimal point: "56" is 0.56. */
  function FractionValue(f: string): real
    requires AllDigits(f)
  {
    if f == [] then 0.0 else (DigitValue(f[0]) as real + FractionValue(f[1..])) / 10.0
  }

  /** The value of integer digits `a` followed by fraction digits `b`. */
  function DecimalValue(a: string, b: string): real
    requires AllDigits(a) && AllDigits(b)
  {
    DigitsValue(a) as real + FractionValue(b)
  }

  function UnsignedValue(t: string): real
    requires IsUnsignedDecimal(t)
  {
    if '.' in t then
      var k := IndexOf(t, '.');
      DecimalValue(t[..k], t[k + 1..])
    else DecimalValue(t, "")
  }

  function LiteralValue(s: string): real
    requires IsDecimalLiteral(s)
  {
    if |s| > 0 && s[0] == '-' then -UnsignedValue(s[1..]) else UnsignedValue(s)
  }

  /** `Number(s)` for a string over `[0-9,.-]`, with `NaN` as `None`: the
      empty string is 0, a decimal literal is its value, anything else (a
      comma, a second point or minus sign, a lone "-") is not a number. */
  function ToNumber(s: string): (r: Option<real>)
    ensures ',' in s ==> r == None
    ensures Count(s, '-') >= 2 ==> r == None
    ensures Count(s, '.') >= 2 ==> r == None
    ensures s == [] ==> r == Some(0.0)
  {
    if s == [] then Some(0.0)
    else if IsDecimalLiteral(s) then
      LiteralCounts(s);
      Some(LiteralValue(s))
    else None
  }

  lemma AllDigitsCounts(d: string, c: char)
    requires AllDigits(d) && !IsDigit(c)
    ensures Count(d, c) == 0
  {
  }

  /** A decimal literal has no comma, at most one point and at most one
      minus sign. */
  lemma LiteralCounts(s: string)
    requires IsDecimalLiteral(s)
    ensures ',' !in s && Count(s, '-') <= 1 && Count(s, '.') <= 1
  {
    LiteralCount(s, ',');
    LiteralCount(s, '-');
    LiteralCount(s, '.');
  }

  lemma LiteralCount(s: string, c: char)
    requires IsDecimalLiteral(s) && !IsDigit(c)
    ensures Count(s, c) <= (if c == '-' then 1 else 0) + (if c == '.' then 1 else 0)
  {
    var t := Unsigned(s);
    var sign := s[..|s| - |t|];
    assert s == sign + t;
    assert Count(sign, c) <= (if c == '-' then 1 else 0) by {
      if sign != [] {
        assert sign == [s[0]] && s[0] == '-';
        assert Count(sign, c) == (if c == '-' then 1 else 0) + Count(sign[1..], c);
      }
    }
    CountAppend(sign, t, c);
    UnsignedCount(t, c);
  }

  lemma UnsignedCount(t: string, c: char)
    requires IsUnsignedDecimal(t) && !IsDigit(c)
    ensures Count(t, c) == (if c == '.' && '.' in t then 1 else 0)
  {
    if '.' in t {
      var k := IndexOf(t, '.');
      var left, right := t[..k], t[k + 1..];
      assert t == left + ([t[k]] + right);
      CountAppend(left, [t[k]] + right, c);
      CountAppend([t[k]], right, c);
      AllDigitsCounts(left, c);
      AllDigitsCounts(right, c);
      assert Count([t[k]], c) == (if c == '.' then 1 else 0) + Count([t[k]][1..], c);
    } else {
      AllDigitsCounts(t, c);
    }
  }

  // ---------------------------------------------------------------------
  // parsePtNumber
  // ---------------------------------------------------------------------

  /** `parsePtNumber(v)`: `null`/`undefined` and blank strings give `None`;
      otherwise strip, settle the separators and convert, `NaN` giving
      `None`. It never fails. */
  function ParsePtNumber(v: Option<string>): (r: Option<real>)
    ensures v.None? ==> r == None
    ensures r.Some? ==> v.Some? && Trim(v.value) != []
    ensures v.Some? && Count(KeepNumeric(v.value), ',') >= 2 ==> r == None
  {
    match v
    case None => None
    case Some(raw) =>
      var s := Trim(raw);
      if s == [] then None
      else
        var n := Normalise(KeepNumeric(s));
        NormaliseCommaCount(KeepNumeric(s));
        StripIgnoresTrim(raw);
        ToNumber(n)
  }

  /** Text without numeric characters around `s` strips away entirely. */
  lemma KeepNumericSkips(pre: string, s: string, post: string)
    requires forall i :: 0 <= i < |pre| ==> !IsNumericChar(pre[i])
    requires forall i :: 0 <= i < |post| ==> !IsNumericChar(post[i])
    ensures KeepNumeric(pre + s + post) == KeepNumeric(s)
  {
    KeepNumericAppend(pre + s, post);
    KeepNumericAppend(pre, s);
    KeepNumericExtremes(pre);
    KeepNumericExtremes(post);
  }

  /** A leading run without numeric characters strips away. */
  lemma KeepNumericDropFront(s: string, n: nat)
    requires n <= |s|
    requires forall i :: 0 <= i < n ==> !IsNumericChar(s[i])
    ensures KeepNumeric(s[n..]) == KeepNumeric(s)
  {
    SplitAt(s, n);
    KeepNumericAppend(s[..n], s[n..]);
    KeepNumericExtremes(s[..n]);
    AppendEmpty(KeepNumeric(s[n..]));
  }

  /** A trailing run without numeric characters strips away. */
  lemma KeepNumericDropBack(s: string, n: nat)
    requires n <= |s|
    requires forall i :: n <= i < |s| ==> !IsNumericChar(s[i])
    ensures KeepNumeric(s[..n]) == KeepNumeric(s)
  {
    SplitAt(s, n);
    KeepNumericAppend(s[..n], s[n..]);
    NoNumericSuffix(s, n);
    KeepNumericExtremes(s[n..]);
    AppendEmpty(KeepNumeric(s[..n]));
  }

  lemma NoNumericSuffix(s: string, n: nat)
    requires n <= |s|
    requires forall i :: n <= i < |s| ==> !IsNumericChar(s[i])
    ensures forall i :: 0 <= i < |s[n..]| ==> !IsNumericChar(s[n..][i])
  {
    forall i | 0 <= i < |s[n..]| ensures !IsNumericChar(s[n..][i]) {
      assert s[n..][i] == s[n + i];
    }
  }

  lemma WhitespaceNotNumeric(c: char)
    requires IsJsWhitespace(c)
    ensures !IsNumericChar(c)
  {
  }

  /** Stripping removes the whitespace that trimming would, so trimming
      first makes no difference to what is stripped. */
  lemma StripIgnoresTrim(s: string)
    ensures KeepNumeric(Trim(s)) == KeepNumeric(s)
  {
    var t := TrimStart(s);
    var r := TrimEnd(t);
    assert KeepNumeric(t) == KeepNumeric(s) by {
      forall i | 0 <= i < |s| - |t| ensures !IsNumericChar(s[i]) {
        WhitespaceNotNumeric(s[i]);
      }
      KeepNumericDropFront(s, |s| - |t|);
    }
    assert KeepNumeric(r) == KeepNumeric(t) by {
      forall i | |r| <= i < |t| ensures !IsNumericChar(t[i]) {
        WhitespaceNotNumeric(t[i]);
      }
      KeepNumericDropBack(t, |r|);
    }
  }

  /** Settling the separators consumes exactly one comma when there is one. */
  lemma NormaliseCommaCount(s: string)
    ensures Count(Normalise(s), ',') == if ',' in s then Count(s, ',') - 1 else 0
  {
    if ',' in s && '.' in s {
      var q := RemoveAll(s, '.');
      RemoveAllCounts(s, '.', ',');
      ReplaceFirstCounts(q, ',', '.', ',');
    } else if ',' in s {
      ReplaceFirstCounts(s, ',', '.', ',');
    }
  }

  /** What the separator step does, case by case: with both separators
      every period goes and the first comma becomes the only period; with
      commas alone exactly the first comma becomes a period; otherwise the
      string is left alone. Digits and minus signs are never touched. */
  lemma NormaliseSeparators(s: string)
    ensures ',' in s && '.' in s ==>
      var r := Normalise(s);
      Count(r, '.') == 1 && Count(r, ',') == Count(s, ',') - 1 &&
      |r| == |s| - Count(s, '.') &&
      r[IndexOf(RemoveAll(s, '.'), ',')] == '.'
    ensures ',' in s && '.' !in s ==>
      var r, k := Normalise(s), IndexOf(s, ',');
      |r| == |s| && r[k] == '.' && forall i :: 0 <= i < |s| && i != k ==> r[i] == s[i]
    ensures ',' !in s ==> Normalise(s) == s
    ensures forall c :: IsDigit(c) || c == '-' ==> Count(Normalise(s), c) == Count(s, c)
  {
    if ',' in s && '.' in s {
      var q := RemoveAll(s, '.');
      RemoveAllCounts(s, '.', ',');
      ReplaceFirstCounts(q, ',', '.', ',');
      ReplaceFirstCounts(q, ',', '.', '.');
      forall c | IsDigit(c) || c == '-' ensures Count(Normalise(s), c) == Count(s, c) {
        RemoveAllCounts(s, '.', c);
        ReplaceFirstCounts(q, ',', '.', c);
      }
    } else if ',' in s {
      forall c | IsDigit(c) || c == '-' ensures Count(Normalise(s), c) == Count(s, c) {
        ReplaceFirstCounts(s, ',', '.', c);
      }
    }
  }

  /** A blank cell (empty or whitespace only) gives `None`. */
  lemma BlankIsNull(v: string)
    requires forall i :: 0 <= i < |v| ==> IsJsWhitespace(v[i])
    ensures ParsePtNumber(Some(v)) == None
  {
    TrimEmptyIff(v);
  }

  /** `None` comes out exactly when the cell is missing or blank, or when
      what is left after stripping and settling the separators is neither
      empty nor a decimal literal. */
  lemma NullIff(v: Option<string>)
    ensures ParsePtNumber(v) == None <==>
      v.None? || Trim(v.value) == [] ||
      (Normalise(KeepNumeric(v.value)) != [] && !IsDecimalLiteral(Normalise(KeepNumeric(v.value))))
  {
    if v.Some? {
      StripIgnoresTrim(v.value);
    }
  }

  /** Currency symbols, letters and spaces around a cell do not change its
      value: "R$ 1.234,56" parses like "1.234,56". */
  lemma NonNumericIgnored(pre: string, s: string, post: string)
    requires forall i :: 0 <= i < |pre| ==> !IsNumericChar(pre[i])
    requires forall i :: 0 <= i < |post| ==> !IsNumericChar(post[i])
    requires Trim(s) != []
    ensures ParsePtNumber(Some(pre + s + post)) == ParsePtNumber(Some(s))
  {
    var whole := pre + s + post;
    TrimEmptyIff(s);
    var i :| 0 <= i < |s| && !IsJsWhitespace(s[i]);
    assert whole[|pre| + i] == s[i];
    TrimEmptyIff(whole);
    StripIgnoresTrim(whole);
    StripIgnoresTrim(s);
    KeepNumericSkips(pre, s, post);
  }

  /** A non-blank cell with no digit, separator or minus sign at all strips
      to "" and `Number("")` is 0: "abc" and "R$" give 0, not `None`. */
  lemma NoNumericCharsIsZero(v: string)
    requires Trim(v) != []
    requires forall i :: 0 <= i < |v| ==> !IsNumericChar(v[i])
    ensures ParsePtNumber(Some(v)) == Some(0.0)
  {
    KeepNumericExtremes(v);
    StripIgnoresTrim(v);
  }

  function Signed(sign: string, x: real): real {
    if sign == "-" then -x else x
  }

  /** Digits, a point and digits, with at least one digit, form an
      unsigned decimal worth what it says. */
  lemma UnsignedDecimalValue(a: string, b: string)
    requires AllDigits(a) && AllDigits(b) && |a| + |b| >= 1
    ensures IsUnsignedDecimal(a + "." + b)
    ensures UnsignedValue(a + "." + b) == DecimalValue(a, b)
  {
    var t := a + "." + b;
    assert t[|a|] == '.';
    assert IndexOf(t, '.') == |a|;
    assert t[..|a|] == a && t[|a| + 1..] == b;
  }

  /** A minus sign in front of an unsigned decimal negates it. */
  lemma SignedLiteral(sign: string, t: string)
    requires sign == "" || sign == "-"
    requires IsUnsignedDecimal(t) && t[0] != '-'
    ensures IsDecimalLiteral(sign + t)
    ensures LiteralValue(sign + t) == Signed(sign, UnsignedValue(t))
  {
    var s := sign + t;
    if sign == "-" {
      assert s[0] == '-' && s[1..] == t;
    } else {
      assert s == t;
    }
  }

  /** An optional minus sign, digits, a point and digits, with at least one
      digit, is a decimal literal worth what it says. */
  lemma DecimalLiteralValue(sign: string, a: string, b: string)
    requires sign == "" || sign == "-"
    requires AllDigits(a) && AllDigits(b) && |a| + |b| >= 1
    ensures IsDecimalLiteral(sign + a + "." + b)
    ensures LiteralValue(sign + a + "." + b) == Signed(sign, DecimalValue(a, b))
  {
    var t := a + "." + b;
    ConcatAssoc(sign, a, ".", b);
    UnsignedDecimalValue(a, b);
    assert t[0] != '-' by {
      if a != [] { assert t[0] == a[0]; } else { assert t[0] == '.'; }
    }
    SignedLiteral(sign, t);
  }

  /** An optional minus sign and digits, with no point, is an integer
      literal worth what it says: "45" is 45 and "-3" is -3. */
  lemma IntegerLiteralValue(sign: string, a: string)
    requires sign == "" || sign == "-"
    requires |a| >= 1 && AllDigits(a)
    ensures ToNumber(sign + a) == Some(Signed(sign, DigitsValue(a) as real))
  {
    DigitsLack(a, '.');
    assert IsUnsignedDecimal(a);
    assert UnsignedValue(a) == DigitsValue(a) as real;
    SignedLiteral(sign, a);
  }

  /** A cell made only of numeric characters skips the trim and strip
      steps. */
  lemma CleanCell(s: string)
    requires forall i :: 0 <= i < |s| ==> IsNumericChar(s[i])
    requires s != []
    ensures ParsePtNumber(Some(s)) == ToNumber(Normalise(s))
  {
    TrimNoWhitespace(s);
    KeepNumericExtremes(s);
  }

  lemma DigitsLack(d: string, c: char)
    requires AllDigits(d) && !IsDigit(c)
    ensures c !in d
  {
  }

  lemma NotInParts(w: string, x: string, y: string, z: string, c: char)
    requires c !in w && c !in x && c !in y && c !in z
    ensures c !in w + x + y + z
  {
  }

  /** `sign + a + sep + b` is made only of numeric characters. */
  lemma NumericParts(sign: string, a: string, sep: string, b: string)
    requires sign == "" || sign == "-"
    requires forall i :: 0 <= i < |a| ==> IsNumericChar(a[i])
    requires sep == "," || sep == "."
    requires AllDigits(b)
    ensures forall i :: 0 <= i < |sign + a + sep + b| ==> IsNumericChar((sign + a + sep + b)[i])
  {
  }

  /** A decimal comma alone: "12,5" is 12.5 and "-0,75" is -0.75. */
  lemma CommaDecimal(sign: string, a: string, b: string)
    requires sign == "" || sign == "-"
    requires AllDigits(a) && AllDigits(b) && |a| + |b| >= 1
    ensures ParsePtNumber(Some(sign + a + "," + b)) == Some(Signed(sign, DecimalValue(a, b)))
  {
    var s := sign + a + "," + b;
    NumericParts(sign, a, ",", b);
    CleanCell(s);
    assert ',' in s by {
      PartsOf(sign + a, ',', b);
    }
    assert '.' !in s by {
      DigitsLack(a, '.');
      DigitsLack(b, '.');
      NotInParts(sign, a, ",", b, '.');
    }
    CommaDecimalClean(sign, a, b);
  }

  /** A string that `RemoveAll` has nothing to remove from is unchanged. */
  lemma {:induction false} RemoveAllAbsent(s: string, c: char)
    requires c !in s
    ensures RemoveAll(s, c) == s
    decreases |s|
  {
    if s != [] {
      assert s == [s[0]] + s[1..];
      RemoveAllAbsent(s[1..], c);
    }
  }

  /** Thousands points with a decimal comma: "1.234,56" is 1234.56 and
      "1.234.567," is 1234567. */
  lemma GroupedDecimal(sign: string, p: string, b: string)
    requires sign == "" || sign == "-"
    requires '.' in p && AllDigits(RemoveAll(p, '.'))
    requires AllDigits(b) && |RemoveAll(p, '.')| + |b| >= 1
    ensures ParsePtNumber(Some(sign + p + "," + b)) ==
            Some(Signed(sign, DecimalValue(RemoveAll(p, '.'), b)))
  {
    var s := sign + p + "," + b;
    var q := RemoveAll(p, '.');
    assert forall i :: 0 <= i < |p| ==> IsNumericChar(p[i]) by {
      forall i | 0 <= i < |p| ensures IsNumericChar(p[i]) {
        if p[i] != '.' {
          assert p[i] in q;
        }
      }
    }
    NumericParts(sign, p, ",", b);
    CleanCell(s);
    assert ',' in s && '.' in s;
    DigitsLack(b, '.');
    assert RemoveAll(s, '.') == sign + q + "," + b by {
      RemoveAllAppend(sign + p + ",", b, '.');
      RemoveAllAppend(sign + p, ",", '.');
      RemoveAllAppend(sign, p, '.');
      RemoveAllAbsent(sign, '.');
      RemoveAllAbsent(",", '.');
      RemoveAllAbsent(b, '.');
    }
    assert Normalise(s) == ReplaceFirst(sign + q + "," + b, ',', '.');
    CommaDecimalClean(sign, q, b);
  }

  /** The comma step on an already clean `sign + a + "," + b`. */
  lemma CommaDecimalClean(sign: string, a: string, b: string)
    requires sign == "" || sign == "-"
    requires AllDigits(a) && AllDigits(b) && |a| + |b| >= 1
    ensures ReplaceFirst(sign + a + "," + b, ',', '.') == sign + a + "." + b
    ensures ToNumber(sign + a + "." + b) == Some(Signed(sign, DecimalValue(a, b)))
  {
    CommaReplaced(sign, a, b);
    DecimalLiteralValue(sign, a, b);
  }

  /** The one comma after the digits of `sign + a` is the one replaced. */
  lemma CommaReplaced(sign: string, a: string, b: string)
    requires sign == "" || sign == "-"
    requires AllDigits(a)
    ensures ReplaceFirst(sign + a + "," + b, ',', '.') == sign + a + "." + b
  {
    var x := sign + a;
    var s := x + "," + b;
    assert forall i :: 0 <= i < |x| ==> x[i] != ',' by {
      forall i | 0 <= i < |x| ensures x[i] != ',' {
        if i < |sign| { assert x[i] == sign[i]; } else { assert x[i] == a[i - |sign|]; }
      }
    }
    PartsOf(x, ',', b);
    forall i | 0 <= i < |x| ensures s[i] != ',' {
      assert s[..|x|][i] == s[i];
    }
    ReplaceFirstAt(s, ',', '.', |x|);
    PartsOf(x, '.', b);
  }

  /** The pieces of `x + [c] + z`. */
  lemma PartsOf(x: string, c: char, z: string)
    ensures (x + [c] + z)[..|x|] == x
    ensures (x + [c] + z)[|x|] == c
    ensures (x + [c] + z)[|x| + 1..] == z
  {
  }

  /** A point with no comma is already a decimal point: "12.5" is 12.5, and
      "1.234" is 1.234, not 1234. */
  lemma PeriodDecimal(sign: string, a: string, b: string)
    requires sign == "" || sign == "-"
    requires AllDigits(a) && AllDigits(b) && |a| + |b| >= 1
    ensures ParsePtNumber(Some(sign + a + "." + b)) ==
            Some(Signed(sign, DecimalValue(a, b)))
  {
    var s := sign + a + "." + b;
    NumericParts(sign, a, ".", b);
    CleanCell(s);
    assert ',' !in s by {
      DigitsLack(a, ',');
      DigitsLack(b, ',');
      NotInParts(sign, a, ".", b, ',');
    }
    DecimalLiteralValue(sign, a, b);
  }

  /** A cell holding a whole number, as every count metric does: "45" is
      45 and "-3" is -3. */
  lemma IntegerCell(sign: string, a: string)
    requires sign == "" || sign == "-"
    requires |a| >= 1 && AllDigits(a)
    ensures ParsePtNumber(Some(sign + a)) == Some(Signed(sign, DigitsValue(a) as real))
  {
    SignedDigits(sign, a);
    CleanCell(sign + a);
    IntegerLiteralValue(sign, a);
  }

  /** `sign + a` is made of numeric characters and has no comma. */
  lemma SignedDigits(sign: string, a: string)
    requires sign == "" || sign == "-"
    requires AllDigits(a)
    ensures forall i :: 0 <= i < |sign + a| ==> IsNumericChar((sign + a)[i])
    ensures ',' !in sign + a
  {
    DigitsLack(a, ',');
  }

  // ---------------------------------------------------------------------
  // Worked examples
  // ---------------------------------------------------------------------

  /** "1.234,56" is 1234.56. */
  lemma ExampleGrouped()
    ensures ParsePtNumber(Some("1.234,56")) == Some(1234.56)
  {
    GroupedExampleParse();
    GroupedExampleValue();
  }

  lemma GroupedExampleParse()
    ensures ParsePtNumber(Some("1.234,56")) == Some(DecimalValue("1234", "56"))
  {
    RemoveAllExample();
    assert "" + "1.234" + "," + "56" == "1.234,56";
    assert "1.234"[1] == '.';
    GroupedDecimal("", "1.234", "56");
  }

  lemma GroupedExampleValue()
    ensures DecimalValue("1234", "56") == 1234.56
  {
    DigitsValueExample();
    assert "56"[1..] == "6" && "6"[1..] == [];
  }

  /** "R$ 1.234,56" is 1234.56 too. */
  lemma ExampleCurrency()
    ensures ParsePtNumber(Some("R$ 1.234,56")) == Some(1234.56)
  {
    assert "R$ " + "1.234,56" + "" == "R$ 1.234,56";
    assert forall i :: 0 <= i < |"R$ "| ==> !IsNumericChar("R$ "[i]);
    TrimGroupedExample();
    ExampleGrouped();
    NonNumericIgnored("R$ ", "1.234,56", "");
  }

  lemma TrimGroupedExample()
    ensures Trim("1.234,56") != []
  {
    TrimEmptyIff("1.234,56");
    assert !IsJsWhitespace("1.234,56"[0]);
  }

  lemma RemoveAllExample()
    ensures RemoveAll("1.234", '.') == "1234"
  {
    RemoveAllOne("1", "234", '.');
    assert "1" + ['.'] + "234" == "1.234";
    assert "1" + "234" == "1234";
  }

  lemma DigitsValueExample()
    ensures DigitsValue("1234") == 1234
  {
    assert "1234"[..3] == "123" && "123"[..2] == "12" && "12"[..1] == "1" && "1"[..0] == [];
  }

  /** "12,5" and "12.5" are both 12.5. */
  lemma ExampleDecimalSeparators()
    ensures ParsePtNumber(Some("12,5")) == Some(12.5)
    ensures ParsePtNumber(Some("12.5")) == Some(12.5)
  {
    assert "" + "12" + "," + "5" == "12,5";
    assert "" + "12" + "." + "5" == "12.5";
    assert DecimalValue("12", "5") == 12.5 by {
      assert "12"[..1] == "1" && "1"[..0] == [] && "5"[1..] == [];
    }
    CommaDecimal("", "12", "5");
    PeriodDecimal("", "12", "5");
  }

  lemma CommaCountExample()
    ensures Count(KeepNumeric("1,2,3"), ',') == 2
  {
    assert KeepNumeric("1,2,3") == "1,2,3" by {
      KeepNumericExtremes("1,2,3");
    }
    var c3 := Count("3", ',');
    assert c3 == 0;
    assert Count(",3", ',') == 1 + c3 by {
      assert ",3"[0] == ',' && ",3"[1..] == "3";
    }
    assert Count("2,3", ',') == Count(",3", ',') by {
      assert "2,3"[0] == '2' && "2,3"[1..] == ",3";
    }
    assert Count(",2,3", ',') == 1 + Count("2,3", ',') by {
      assert ",2,3"[0] == ',' && ",2,3"[1..] == "2,3";
    }
    assert Count("1,2,3", ',') == Count(",2,3", ',') by {
      assert "1,2,3"[0] == '1' && "1,2,3"[1..] == ",2,3";
    }
  }

  /** "R$ -", "1,2,3", "" and " " are all `None`: the first strips to "-",
      which is not a number; the second keeps a comma after the first one
      is replaced; the last two are blank. */
  lemma ExampleNull()
    ensures ParsePtNumber(Some("R$ -")) == None
    ensures ParsePtNumber(Some("1,2,3")) == None
    ensures ParsePtNumber(Some("")) == None
    ensures ParsePtNumber(Some(" ")) == None
  {
    NullCurrencyDash();
    NullRepeatedComma();
    BlankIsNull("");
    NullSpace();
  }

  lemma NullCurrencyDash()
    ensures ParsePtNumber(Some("R$ -")) == None
  {
    DashIsNull();
    TrimDash();
    assert "R$ " + "-" + "" == "R$ -";
    assert forall i :: 0 <= i < |"R$ "| ==> !IsNumericChar("R$ "[i]);
    NonNumericIgnored("R$ ", "-", "");
  }

  lemma DashIsNull()
    ensures ParsePtNumber(Some("-")) == None
  {
    assert KeepNumeric("-") == "-";
    assert !IsDecimalLiteral("-");
  }

  lemma TrimDash()
    ensures Trim("-") != []
  {
    TrimEmptyIff("-");
    assert !IsJsWhitespace("-"[0]);
  }

  lemma NullRepeatedComma()
    ensures ParsePtNumber(Some("1,2,3")) == None
  {
    CommaCountExample();
  }

  lemma NullSpace()
    ensures ParsePtNumber(Some(" ")) == None
  {
    assert IsJsWhitespace(" "[0]);
    BlankIsNull(" ");
  }
}
