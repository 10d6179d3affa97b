/** The parts of Go's `strings`, `strconv` and `unicode` packages that the
    limiter, the settings code and the OS helpers rely on, written as
    functions over `string` (a sequence of code points). */
module GoStrings {
  import opened Wrappers

  /** `unicode.IsSpace`: the ASCII white space characters, U+0085, U+00A0 and
      the characters of Unicode's White_Space property. */
  predicate IsSpace(c: char) {
    c == ' ' || c == '\t' || c == '\n' || c == '\U{B}' || c == '\U{C}' || c == '\r'
    || c == '\U{85}' || c == '\U{A0}' || c == '\U{1680}'
    || ('\U{2000}' <= c <= '\U{200A}')
    || c == '\U{2028}' || c == '\U{2029}' || c == '\U{202F}' || c == '\U{205F}' || c == '\U{3000}'
  }

  /** `strings.HasPrefix` */
  predicate HasPrefix(s: string, p: string) {
    |p| <= |s| && s[..|p|] == p
  }

  /** `strings.HasSuffix` */
  predicate HasSuffix(s: string, p: string) {
    |p| <= |s| && s[|s| - |p|..] == p
  }

  /** `strings.Contains`: some position of `s` starts with `sub`. */
  predicate Contains(s: string, sub: string)
    decreases |s|
  {
    HasPrefix(s, sub) || (|s| > 0 && Contains(s[1..], sub))
  }

  lemma {:induction false} ContainsAt(s: string, sub: string, i: nat)
    requires i + |sub| <= |s| && s[i..i + |sub|] == sub
    ensures Contains(s, sub)
    decreases i
  {
    if i == 0 {
      assert s[..|sub|] == sub;
    } else {
      assert s[1..][i - 1..i - 1 + |sub|] == s[i..i + |sub|];
      ContainsAt(s[1..], sub, i - 1);
    }
  }

  /** Number of occurrences of the character `c` in `s`. */
  function CountChar(s: string, c: char): nat
    decreases |s|
  {
    if |s| == 0 then 0 else (if s[0] == c then 1 else 0) + CountChar(s[1..], c)
  }

  /** `strings.Split(s, string(sep))` for a one-character separator: the
      pieces between the separators, in order, with the empty pieces kept. */
  function Split(s: string, sep: char): (r: seq<string>)
    ensures |r| >= 1
    decreases |s|
  {
    if |s| == 0 then [""]
    else
      var rest := Split(s[1..], sep);
      if s[0] == sep then [""] + rest else [[s[0]] + rest[0]] + rest[1..]
  }

  /** `strings.Join(parts, string(sep))` */
  function Join(parts: seq<string>, sep: char): string
    decreases |parts|
  {
    if |parts| == 0 then ""
    else if |parts| == 1 then parts[0]
    else parts[0] + [sep] + Join(parts[1..], sep)
  }

  /** Splitting yields exactly one more piece than there are separators. */
  lemma {:induction false} SplitCount(s: string, sep: char)
    ensures |Split(s, sep)| == CountChar(s, sep) + 1
    decreases |s|
  {
    if |s| > 0 {
      SplitCount(s[1..], sep);
    }
  }

  /** No piece of a split holds the separator. */
  lemma {:induction false} SplitPiecesFree(s: string, sep: char)
    ensures forall i, j :: 0 <= i < |Split(s, sep)| && 0 <= j < |Split(s, sep)[i]| ==> Split(s, sep)[i][j] != sep
    decreases |s|
  {
    if |s| > 0 {
      var rest := Split(s[1..], sep);
      SplitPiecesFree(s[1..], sep);
      var r := Split(s, sep);
      if s[0] == sep {
        assert r == [""] + rest;
        forall i, j | 0 <= i < |r| && 0 <= j < |r[i]| ensures r[i][j] != sep {
          assert r[i] == rest[i - 1];
        }
      } else {
        assert r == [[s[0]] + rest[0]] + rest[1..];
        forall i, j | 0 <= i < |r| && 0 <= j < |r[i]| ensures r[i][j] != sep {
          if i == 0 {
            if j > 0 { assert r[0][j] == rest[0][j - 1]; }
          } else {
            assert r[i] == rest[i];
          }
        }
      }
    }
  }

  /** Joining the pieces of a split back with the separator gives `s`. */
  lemma {:induction false} SplitJoinBack(s: string, sep: char)
    ensures Join(Split(s, sep), sep) == s
    decreases |s|
  {
    if |s| > 0 {
      var rest := Split(s[1..], sep);
      SplitJoinBack(s[1..], sep);
      if s[0] == sep {
        assert Split(s, sep) == [""] + rest;
        assert ([""] + rest)[1..] == rest;
        assert Join([""] + rest, sep) == "" + [sep] + Join(rest, sep);
      } else {
        var r := Split(s, sep);
        assert r == [[s[0]] + rest[0]] + rest[1..];
        if |rest| == 1 {
          assert Join(r, sep) == [s[0]] + rest[0];
        } else {
          assert r[1..] == rest[1..];
          assert Join(rest, sep) == rest[0] + [sep] + Join(rest[1..], sep);
          assert Join(r, sep) == [s[0]] + rest[0] + [sep] + Join(rest[1..], sep);
        }
      }
    }
  }

  /** No piece holds the separator, and joining the pieces back gives `s`. */
  lemma SplitJoin(s: string, sep: char)
    ensures forall i, j :: 0 <= i < |Split(s, sep)| && 0 <= j < |Split(s, sep)[i]| ==> Split(s, sep)[i][j] != sep
    ensures Join(Split(s, sep), sep) == s
  {
    SplitPiecesFree(s, sep);
    SplitJoinBack(s, sep);
  }

  /** `strings.TrimSpace`: `s` with the white space at both ends cut away;
      what is left neither starts nor ends with white space. */
  function TrimSpace(s: string): (r: string)
    ensures r == "" || (!IsSpace(r[0]) && !IsSpace(r[|r| - 1]))
    ensures |r| <= |s|
    ensures (s == "" || (!IsSpace(s[0]) && !IsSpace(s[|s| - 1]))) ==> r == s
    decreases |s|
  {
    if |s| > 0 && IsSpace(s[0]) then TrimSpace(s[1..])
    else if |s| > 0 && IsSpace(s[|s| - 1]) then TrimSpace(s[..|s| - 1])
    else s
  }

  /** Every character of `s` is white space. */
  predicate AllSpace(s: string) {
    forall k :: 0 <= k < |s| ==> IsSpace(s[k])
  }

  /** What TrimSpace keeps is `s` less a run of white space at its start and
      one at its end. */
  lemma {:induction false} TrimSpaceInfix(s: string) returns (lead: string, trail: string)
    ensures s == lead + TrimSpace(s) + trail
    ensures AllSpace(lead) && AllSpace(trail)
    decreases |s|
  {
    if |s| > 0 && IsSpace(s[0]) {
      var l, tr := TrimSpaceInfix(s[1..]);
      lead, trail := TrimLeadStep(s, l, tr);
    } else if |s| > 0 && IsSpace(s[|s| - 1]) {
      var l, tr := TrimSpaceInfix(s[..|s| - 1]);
      lead, trail := TrimTrailStep(s, l, tr);
    } else {
      lead, trail := "", "";
      assert s == lead + s + trail;
    }
  }

  lemma TrimLeadStep(s: string, l: string, tr: string) returns (lead: string, trail: string)
    requires |s| > 0 && IsSpace(s[0])
    requires s[1..] == l + TrimSpace(s[1..]) + tr && AllSpace(l) && AllSpace(tr)
    ensures s == lead + TrimSpace(s) + trail
    ensures AllSpace(lead) && AllSpace(trail)
  {
    assert TrimSpace(s) == TrimSpace(s[1..]);
    AllSpaceCons(s[0], l);
    lead, trail := [s[0]] + l, tr;
    assert s == [s[0]] + s[1..];
  }

  lemma TrimTrailStep(s: string, l: string, tr: string) returns (lead: string, trail: string)
    requires |s| > 0 && !IsSpace(s[0]) && IsSpace(s[|s| - 1])
    requires s[..|s| - 1] == l + TrimSpace(s[..|s| - 1]) + tr && AllSpace(l) && AllSpace(tr)
    ensures s == lead + TrimSpace(s) + trail
    ensures AllSpace(lead) && AllSpace(trail)
  {
    assert TrimSpace(s) == TrimSpace(s[..|s| - 1]);
    AllSpaceSnoc(tr, s[|s| - 1]);
    lead, trail := l, tr + [s[|s| - 1]];
    assert s == s[..|s| - 1] + [s[|s| - 1]];
  }

  lemma AllSpaceCons(c: char, t: string)
    requires IsSpace(c) && AllSpace(t)
    ensures AllSpace([c] + t)
  {
    assert forall k :: 0 < k < |t| + 1 ==> ([c] + t)[k] == t[k - 1];
  }

  lemma AllSpaceSnoc(t: string, c: char)
    requires IsSpace(c) && AllSpace(t)
    ensures AllSpace(t + [c])
  {
    assert forall k :: 0 <= k < |t| ==> (t + [c])[k] == t[k];
  }

  /** The longest prefix of `s` made of non-space characters. */
  function WordPrefix(s: string): (w: string)
    ensures |w| <= |s| && w == s[..|w|]
    ensures forall j :: 0 <= j < |w| ==> !IsSpace(w[j])
    ensures |w| == |s| || IsSpace(s[|w|])
    decreases |s|
  {
    if |s| == 0 || IsSpace(s[0]) then "" else [s[0]] + WordPrefix(s[1..])
  }

  /** `strings.Fields`: the maximal runs of non-space characters, in order. */
  function Fields(s: string): (r: seq<string>)
    ensures forall i :: 0 <= i < |r| ==> |r[i]| > 0
    ensures forall i, j :: 0 <= i < |r| && 0 <= j < |r[i]| ==> !IsSpace(r[i][j])
    decreases |s|
  {
    if |s| == 0 then []
    else if IsSpace(s[0]) then Fields(s[1..])
    else
      var w := WordPrefix(s);
      [w] + Fields(s[|w|..])
  }

  /** A non-empty run of non-space characters is a single field. */
  lemma FieldsWord(w: string)
    requires |w| > 0 && forall j :: 0 <= j < |w| ==> !IsSpace(w[j])
    ensures Fields(w) == [w]
  {
    WordPrefixWhole(w);
    assert w[|w|..] == "";
  }

  /** A text without white space is its own longest word. */
  lemma {:induction false} WordPrefixWhole(w: string)
    requires forall j :: 0 <= j < |w| ==> !IsSpace(w[j])
    ensures WordPrefix(w) == w
    decreases |w|
  {
    if |w| > 0 {
      WordPrefixWhole(w[1..]);
      assert [w[0]] + w[1..] == w;
    }
  }

  /** A word stops at the first white space. */
  lemma {:induction false} WordPrefixBeforeSpace(a: string, c: char, b: string)
    requires IsSpace(c)
    ensures WordPrefix(a + [c] + b) == WordPrefix(a)
    decreases |a|
  {
    if |a| == 0 {
      assert (a + [c] + b)[0] == c;
    } else if !IsSpace(a[0]) {
      assert (a + [c] + b)[1..] == a[1..] + [c] + b;
      WordPrefixBeforeSpace(a[1..], c, b);
    }
  }

  /** The fields on either side of a white space character are kept apart:
      with `Fields("") == []` and FieldsWord this determines Fields on
      every text. */
  lemma {:induction false} FieldsSplitAt(a: string, c: char, b: string)
    requires IsSpace(c)
    ensures Fields(a + [c] + b) == Fields(a) + Fields(b)
    decreases |a|
  {
    if |a| == 0 {
      FieldsSkipSpace(c, b);
      assert a + [c] + b == [c] + b;
    } else if IsSpace(a[0]) {
      FieldsSplitAt(a[1..], c, b);
      FieldsSplitLeadSpace(a, c, b);
    } else {
      WordPrefixBeforeSpace(a, c, b);
      FieldsSplitAt(a[|WordPrefix(a)|..], c, b);
      FieldsAfterWord(a, c, b);
    }
  }

  lemma FieldsSplitLeadSpace(a: string, c: char, b: string)
    requires IsSpace(c) && |a| > 0 && IsSpace(a[0])
    requires Fields(a[1..] + [c] + b) == Fields(a[1..]) + Fields(b)
    ensures Fields(a + [c] + b) == Fields(a) + Fields(b)
  {
    var t := a + [c] + b;
    assert t[0] == a[0];
    assert t[1..] == a[1..] + [c] + b;
    assert Fields(t) == Fields(t[1..]);
    assert Fields(a) == Fields(a[1..]);
  }

  /** A leading white space character contributes no field. */
  lemma FieldsSkipSpace(c: char, u: string)
    requires IsSpace(c)
    ensures Fields([c] + u) == Fields(u)
  {
    assert ([c] + u)[1..] == u;
  }

  /** When `a` starts with a word, that word is the first field on both sides. */
  lemma FieldsAfterWord(a: string, c: char, b: string)
    requires IsSpace(c) && |a| > 0 && !IsSpace(a[0])
    requires WordPrefix(a + [c] + b) == WordPrefix(a)
    requires Fields(a[|WordPrefix(a)|..] + [c] + b) == Fields(a[|WordPrefix(a)|..]) + Fields(b)
    ensures Fields(a + [c] + b) == Fields(a) + Fields(b)
  {
    var w := WordPrefix(a);
    var rest := a[|w|..];
    var t := a + [c] + b;
    assert t[0] == a[0];
    assert t[|w|..] == rest + [c] + b;
    assert Fields(t) == [w] + Fields(t[|w|..]);
    assert Fields(a) == [w] + Fields(rest);
    ConsAppend(w, Fields(rest), Fields(b));
  }

  lemma ConsAppend<T>(x: T, u: seq<T>, v: seq<T>)
    ensures ([x] + u) + v == [x] + (u + v)
  {
  }

  /** `strings.ReplaceAll(s, string(c), "")` */
  function RemoveChar(s: string, c: char): (r: string)
    ensures |r| == |s| - CountChar(s, c)
    ensures forall i :: 0 <= i < |r| ==> r[i] != c
    decreases |s|
  {
    if |s| == 0 then ""
    else (if s[0] == c then "" else [s[0]]) + RemoveChar(s[1..], c)
  }

  /** Removing from a concatenation removes from each part: with
      RemoveCharSingle this says every other character stays, in order. */
  lemma {:induction false} RemoveCharAppend(a: string, b: string, c: char)
    ensures RemoveChar(a + b, c) == RemoveChar(a, c) + RemoveChar(b, c)
    decreases |a|
  {
    if |a| > 0 {
      assert (a + b)[0] == a[0];
      assert (a + b)[1..] == a[1..] + b;
      RemoveCharAppend(a[1..], b, c);
    } else {
      assert a + b == b;
    }
  }

  /** One character is dropped when it is `c` and kept otherwise. */
  lemma RemoveCharSingle(x: char, c: char)
    ensures RemoveChar([x], c) == if x == c then "" else [x]
  {
    assert [x][1..] == "";
  }

  // ---------------------------------------------------------------------
  // strconv

  /** Go's `int` is 64 bits wide on the platforms the program is built for. */
  const IntMin: int := -0x8000_0000_0000_0000
  const IntMax: int := 0x7FFF_FFFF_FFFF_FFFF

  predicate IsDigit(c: char) { '0' <= c <= '9' }

  predicate AllDigits(s: string) {
    forall i :: 0 <= i < |s| ==> IsDigit(s[i])
  }

  function DigitValue(c: char): nat
    requires IsDigit(c)
  {
    c as int - '0' as int
  }

  /** The value of a string of decimal digits, most significant first. */
  function DecimalValue(s: string): nat
    requires AllDigits(s)
    decreases |s|
  {
    if |s| == 0 then 0 else 10 * DecimalValue(s[..|s| - 1]) + DigitValue(s[|s| - 1])
  }

  /** `strconv.Atoi`: an optional `+` or `-`, then at least one decimal digit,
      and the value must fit Go's 64-bit `int`; anything else is an error. */
  function Atoi(s: string): (r: Option<int>)
    ensures r.Some? ==> IntMin <= r.value <= IntMax
    ensures r.Some? ==> |s| > 0 && AllDigits(if s[0] == '+' || s[0] == '-' then s[1..] else s)
    ensures r.Some? && |s| > 0 && s[0] == '-' ==> r.value <= 0
    ensures r.Some? && s[0] != '-' ==> r.value >= 0
    // the value is the signed decimal value of the digits
    ensures r.Some? ==> |s| > 0 && r.value == (if s[0] == '-' then 0 - DecimalValue(s[1..]) as int
                                               else DecimalValue(if s[0] == '+' then s[1..] else s))
    // and every sign-and-digits text whose value fits is accepted
    ensures var digits := if |s| > 0 && (s[0] == '+' || s[0] == '-') then s[1..] else s;
            |digits| > 0 && AllDigits(digits)
            && IntMin <= (if s[0] == '-' then 0 - DecimalValue(digits) as int else DecimalValue(digits)) <= IntMax
            ==> r.Some?
  {
    var signed := |s| > 0 && (s[0] == '+' || s[0] == '-');
    var digits := if signed then s[1..] else s;
    if |digits| == 0 || !AllDigits(digits) then None
    else
      var v: int := if |s| > 0 && s[0] == '-' then 0 - DecimalValue(digits) as int else DecimalValue(digits);
      if IntMin <= v <= IntMax then Some(v) else None
  }

  function DigitChar(d: nat): (c: char)
    requires d < 10
    ensures IsDigit(c) && DigitValue(c) == d
  {
    ('0' as int + d) as char
  }

  /** The decimal digits of `n`, without leading zeros. */
  function Digits(n: nat): (r: string)
    ensures |r| > 0 && AllDigits(r)
    decreases n
  {
    if n < 10 then [DigitChar(n)] else Digits(n / 10) + [DigitChar(n % 10)]
  }

  /** `strconv.Itoa`, the decimal text Redis stores for a counter. */
  function FormatInt(n: int): string {
    if n < 0 then "-" + Digits(-n) else Digits(n)
  }

  lemma {:induction false} DigitsValue(n: nat)
    ensures DecimalValue(Digits(n)) == n
    decreases n
  {
    if n >= 10 {
      var d := Digits(n);
      DigitsValue(n / 10);
      assert d[..|d| - 1] == Digits(n / 10);
    }
  }

  /** Reading back a formatted integer gives the integer, for every value of
      Go's `int`. */
  lemma AtoiFormatInt(n: int)
    requires IntMin <= n <= IntMax
    ensures Atoi(FormatInt(n)) == Some(n)
  {
    var f := FormatInt(n);
    if n < 0 {
      DigitsValue(-n);
      assert f[1..] == Digits(-n);
    } else {
      DigitsValue(n);
    }
  }
}
