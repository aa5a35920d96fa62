/** The ECMAScript string built-ins the generator relies on: `trim`,
    `split` on one character, `toLowerCase`, `indexOf`, `replace` with a
    string pattern, `parseInt(_, 10)` and the decimal rendering of a
    non-negative integer in a template literal. Strings are sequences of
    Unicode scalar values. */
module JsString {
  import opened Outcomes

  /** The WhiteSpace and LineTerminator code points of ECMA-262 (sections
      12.2 and 12.3): what the regular-expression class `\s` matches and
      what `trim` and `parseInt` skip. */
  predicate IsWhitespace(c: char) {
    || c == '\t' || c == '\n' || c == '\U{0B}' || c == '\U{0C}' || c == '\r' || c == ' '
    || c == '\U{A0}' || c == '\U{1680}' || ('\U{2000}' <= c <= '\U{200A}')
    || c == '\U{2028}' || c == '\U{2029}' || c == '\U{202F}' || c == '\U{205F}'
    || c == '\U{3000}' || c == '\U{FEFF}'
  }

  predicate IsDigit(c: char) { '0' <= c <= '9' }

  predicate IsAsciiUpper(c: char) { 'A' <= c <= 'Z' }

  /** The regular-expression class `\w` without the `u` flag: ASCII letters, digits and `_`. */
  predicate IsWordChar(c: char) { 'a' <= c <= 'z' || IsAsciiUpper(c) || IsDigit(c) || c == '_' }

  predicate AllWhitespace(s: string) {
    forall i :: 0 <= i < |s| ==> IsWhitespace(s[i])
  }

  predicate AllDigits(s: string) {
    forall i :: 0 <= i < |s| ==> IsDigit(s[i])
  }

  // ---------------------------------------------------------------------
  // trim
  // ---------------------------------------------------------------------

  /** Drops the leading whitespace: the result is the longest suffix of `s`
      that does not start with whitespace, and what was dropped is all
      whitespace. */
  function TrimStart(s: string): (r: string)
    ensures |r| <= |s|
    ensures AllWhitespace(s[..|s| - |r|])
    ensures r == [] || !IsWhitespace(r[0])
  {
    if s != [] && IsWhitespace(s[0]) then
      var r := TrimStart(s[1..]);
      assert s[..|s| - |r|] == [s[0]] + s[1..][..|s| - 1 - |r|];
      r
    else s
  }

  /** What TrimStart keeps is the end of its input. */
  lemma {:induction false} TrimStartIsSuffix(s: string)
    ensures TrimStart(s) == s[|s| - |TrimStart(s)|..]
  {
    if s != [] && IsWhitespace(s[0]) {
      TrimStartIsSuffix(s[1..]);
      assert s[1..][|s[1..]| - |TrimStart(s)|..] == s[|s| - |TrimStart(s)|..];
    }
  }

  /** Drops the trailing whitespace: the result is the longest prefix of `s`
      that does not end with whitespace, and what was dropped is all
      whitespace. */
  function TrimEnd(s: string): (r: string)
    ensures |r| <= |s| && r == s[..|r|]
    ensures AllWhitespace(s[|r|..])
    ensures r == [] || !IsWhitespace(r[|r| - 1])
  {
    if s != [] && IsWhitespace(s[|s| - 1]) then
      var r := TrimEnd(s[..|s| - 1]);
      assert s[|r|..] == s[..|s| - 1][|r|..] + [s[|s| - 1]];
      r
    else s
  }

  /** Neither end of `s` is whitespace. */
  predicate IsTrimmed(s: string) {
    s == [] || (!IsWhitespace(s[0]) && !IsWhitespace(s[|s| - 1]))
  }

  /** `r` is `s[a..b]` and everything outside that slice is whitespace. */
  predicate TrimmedSlice(s: string, a: int, b: int, r: string) {
    0 <= a <= b <= |s| && r == s[a..b] && AllWhitespace(s[..a]) && AllWhitespace(s[b..])
  }

  /** `String.prototype.trim`: the result is the slice of `s` left after
      removing whitespace at both ends; it is empty exactly when `s` is all
      whitespace, and otherwise starts and ends with a non-whitespace
      character. */
  function Trim(s: string): (r: string)
    ensures exists a, b :: TrimmedSlice(s, a, b, r)
    ensures r == [] <==> AllWhitespace(s)
    ensures IsTrimmed(r)
  {
    TrimBounds(s);
    TrimEnd(TrimStart(s))
  }

  lemma TrimBounds(s: string)
    ensures exists a, b :: TrimmedSlice(s, a, b, TrimEnd(TrimStart(s)))
    ensures TrimEnd(TrimStart(s)) == [] <==> AllWhitespace(s)
  {
    var a, b := TrimSlice(s);
    TrimEmpty(s);
  }

  lemma TrimSlice(s: string) returns (a: int, b: int)
    ensures TrimmedSlice(s, a, b, TrimEnd(TrimStart(s)))
  {
    var t := TrimStart(s);
    var r := TrimEnd(t);
    a := |s| - |t|;
    b := a + |r|;
    TrimStartIsSuffix(s);
    SliceOfSuffix(s, t, r, a);
  }

  /** A prefix `r` of the suffix `t == s[a..]`, with whitespace before `t`
      and after `r`, is a trimmed slice of `s`. */
  lemma SliceOfSuffix(s: string, t: string, r: string, a: nat)
    requires a <= |s| && t == s[a..] && |r| <= |t| && r == t[..|r|]
    requires AllWhitespace(s[..a]) && AllWhitespace(t[|r|..])
    ensures TrimmedSlice(s, a, a + |r|, r)
  {
    assert t[..|r|] == s[a..a + |r|];
    assert t[|r|..] == s[a + |r|..];
  }

  lemma TrimEmpty(s: string)
    ensures TrimEnd(TrimStart(s)) == [] <==> AllWhitespace(s)
  {
    var t := TrimStart(s);
    var r := TrimEnd(t);
    var a := |s| - |t|;
    TrimStartIsSuffix(s);
    if t != [] {
      assert s[a] == t[0];
    }
    if r == [] {
      assert t[|r|..] == t;
      assert AllWhitespace(t);
      assert t == [];
      assert s[..a] == s;
    }
  }

  /** A string with no whitespace at either end is its own trim. */
  lemma TrimOfTrimmed(s: string)
    requires IsTrimmed(s)
    ensures Trim(s) == s
  {
    if s != [] {
      assert TrimStart(s) == s;
      assert TrimEnd(s) == s;
    }
  }

  /** Trimming is idempotent. */
  lemma TrimIdempotent(s: string)
    ensures Trim(Trim(s)) == Trim(s)
  {
    TrimOfTrimmed(Trim(s));
  }

  // ---------------------------------------------------------------------
  // split on one character
  // ---------------------------------------------------------------------

  /** Concatenates the pieces with `sep` between consecutive pieces
      (`Array.prototype.join`). */
  function Join(pieces: seq<string>, sep: char): string
    requires |pieces| >= 1
  {
    if |pieces| == 1 then pieces[0] else pieces[0] + [sep] + Join(pieces[1..], sep)
  }

  /** `String.prototype.split` with a one-character separator: the pieces
      never contain the separator, there is always at least one piece (the
      empty string splits into `[""]`), and joining them back with the
      separator gives `s`. */
  function Split(s: string, sep: char): (r: seq<string>)
    ensures |r| >= 1
    ensures forall i :: 0 <= i < |r| ==> sep !in r[i]
    ensures Join(r, sep) == s
  {
    if s == [] then [""]
    else
      var rest := Split(s[1..], sep);
      if s[0] == sep then
        assert [s[0]] + s[1..] == s;
        [""] + rest
      else
        var r := [[s[0]] + rest[0]] + rest[1..];
        assert r[1..] == rest[1..];
        assert Join(r, sep) == s by {
          if |rest| == 1 {
            assert [s[0]] + s[1..] == s;
          } else {
            calc {
              Join(r, sep);
              ([s[0]] + rest[0]) + [sep] + Join(rest[1..], sep);
              [s[0]] + (rest[0] + [sep] + Join(rest[1..], sep));
              [s[0]] + Join(rest, sep);
              s;
            }
          }
        }
        r
  }

  /** A piece without the separator splits into itself. */
  lemma {:induction false} SplitNoSeparator(x: string, sep: char)
    requires sep !in x
    ensures Split(x, sep) == [x]
  {
    if x != [] {
      SplitNoSeparator(x[1..], sep);
    }
  }

  /** Splitting stops at the first separator. */
  lemma {:induction false} SplitAtFirst(x: string, sep: char, y: string)
    requires sep !in x
    ensures Split(x + [sep] + y, sep) == [x] + Split(y, sep)
  {
    if x == [] {
      assert x + [sep] + y == [sep] + y;
      assert ([sep] + y)[1..] == y;
    } else {
      assert (x + [sep] + y)[1..] == x[1..] + [sep] + y;
      SplitAtFirst(x[1..], sep, y);
      assert [x[0]] + x[1..] == x;
    }
  }

  /** Split undoes Join when no piece contains the separator: together with
      Split's own contract, the two are inverse bijections. */
  lemma {:induction false} SplitJoin(pieces: seq<string>, sep: char)
    requires |pieces| >= 1
    requires forall i :: 0 <= i < |pieces| ==> sep !in pieces[i]
    ensures Split(Join(pieces, sep), sep) == pieces
  {
    if |pieces| == 1 {
      SplitNoSeparator(pieces[0], sep);
    } else {
      SplitJoin(pieces[1..], sep);
      SplitAtFirst(pieces[0], sep, Join(pieces[1..], sep));
      assert [pieces[0]] + pieces[1..] == pieces;
    }
  }

  // ---------------------------------------------------------------------
  // toLowerCase
  // ---------------------------------------------------------------------

  /** The lower-case mapping of one character, for the characters whose
      lower case contains ASCII: `A`-`Z`, U+0130 (which lowers to `i`
      followed by a combining dot) and the Kelvin sign U+212A (which lowers
      to `k`). Every other character is kept. */
  function LowerChar(c: char): string {
    if IsAsciiUpper(c) then [(c as int + 32) as char]
    else if c == '\U{0130}' then ['i', '\U{0307}']
    else if c == '\U{212A}' then ['k']
    else [c]
  }

  /** `String.prototype.toLowerCase`: no ASCII upper-case letter survives,
      the result is never shorter, and on ASCII text it maps each letter
      `A`-`Z` to its lower case and keeps every other character in place. */
  function ToLowerCase(s: string): (r: string)
    ensures forall i :: 0 <= i < |r| ==> !IsAsciiUpper(r[i])
    ensures |r| >= |s|
    ensures (forall i :: 0 <= i < |s| ==> s[i] < '\U{80}') ==>
              |r| == |s| && forall i :: 0 <= i < |s| ==>
                r[i] == if IsAsciiUpper(s[i]) then (s[i] as int + 32) as char else s[i]
  {
    if s == [] then []
    else
      var rest := ToLowerCase(s[1..]);
      assert forall i :: 1 <= i < |s| ==> s[1..][i - 1] == s[i];
      LowerChar(s[0]) + rest
  }

  /** Concatenation regrouped, for proofs that rewrite inside larger terms. */
  lemma Assoc(a: string, b: string, c: string)
    ensures a + b + c == a + (b + c)
  {
  }

  /** Lowering works character by character, so it distributes over
      concatenation. */
  lemma {:induction false} LowerAppend(a: string, b: string)
    ensures ToLowerCase(a + b) == ToLowerCase(a) + ToLowerCase(b)
  {
    if a == [] {
      assert a + b == b;
    } else {
      var t := a[1..];
      var c, lt, lb := LowerChar(a[0]), ToLowerCase(t), ToLowerCase(b);
      assert a + b == [a[0]] + (t + b) && a == [a[0]] + t by {
        Assoc([a[0]], t, b);
      }
      LowerCons(a + b, a[0], t + b);
      LowerCons(a, a[0], t);
      LowerAppend(t, b);
      Assoc(c, lt, lb);
    }
  }

  /** Lowering a text is lowering its first character, then the rest. */
  lemma LowerCons(s: string, h: char, t: string)
    requires s == [h] + t
    ensures ToLowerCase(s) == LowerChar(h) + ToLowerCase(t)
  {
    assert s[1..] == t;
  }

  // ---------------------------------------------------------------------
  // indexOf and replace
  // ---------------------------------------------------------------------

  predicate OccursAt(s: string, pat: string, j: int) {
    0 <= j && j + |pat| <= |s| && s[j..j + |pat|] == pat
  }

  predicate Contains(s: string, pat: string) {
    exists j :: 0 <= j <= |s| && OccursAt(s, pat, j)
  }

  /** The first occurrence of `pat` in `s` at or after `from`. */
  function IndexOfFrom(s: string, pat: string, from: nat): (r: Option<nat>)
    requires from <= |s|
    ensures r.Some? ==> from <= r.value && OccursAt(s, pat, r.value)
    ensures r.Some? ==> forall j :: from <= j < r.value ==> !OccursAt(s, pat, j)
    ensures r.None? ==> forall j :: from <= j ==> !OccursAt(s, pat, j)
    decreases |s| - from
  {
    if from + |pat| > |s| then None
    else if s[from..from + |pat|] == pat then Some(from)
    else if from == |s| then None
    else IndexOfFrom(s, pat, from + 1)
  }

  /** `String.prototype.indexOf`, with `None` for JavaScript's -1: the
      position of the first occurrence of `pat`, or none when `pat` does
      not occur. */
  function IndexOf(s: string, pat: string): (r: Option<nat>)
    ensures r.Some? ==> OccursAt(s, pat, r.value) && forall j :: 0 <= j < r.value ==> !OccursAt(s, pat, j)
    ensures r.None? <==> !Contains(s, pat)
  {
    IndexOfFrom(s, pat, 0)
  }

  /** The replacement text of GetSubstitution (ECMA-262 section 22.1.3.19.1)
      for a string pattern, which has no capture groups: `$$` gives `$`,
      `$&` the matched text, `` $` `` the text before the match, `$'` the
      text after it, and every other character (including a `$` that starts
      none of these) stands for itself. */
  function Substitution(rep: string, matched: string, before: string, after: string): string
    decreases |rep|
  {
    if rep == [] then []
    else if rep[0] == '$' && |rep| >= 2 && rep[1] == '$' then "$" + Substitution(rep[2..], matched, before, after)
    else if rep[0] == '$' && |rep| >= 2 && rep[1] == '&' then matched + Substitution(rep[2..], matched, before, after)
    else if rep[0] == '$' && |rep| >= 2 && rep[1] == '`' then before + Substitution(rep[2..], matched, before, after)
    else if rep[0] == '$' && |rep| >= 2 && rep[1] == '\'' then after + Substitution(rep[2..], matched, before, after)
    else [rep[0]] + Substitution(rep[1..], matched, before, after)
  }

  /** A replacement without `$` is inserted verbatim. */
  lemma {:induction false} SubstitutionPlain(rep: string, matched: string, before: string, after: string)
    requires '$' !in rep
    ensures Substitution(rep, matched, before, after) == rep
  {
    if rep != [] {
      SubstitutionPlain(rep[1..], matched, before, after);
      assert [rep[0]] + rep[1..] == rep;
    }
  }

  /** `String.prototype.replace` with a string pattern: only the FIRST
      occurrence of `pat` is replaced; a string without `pat` is returned
      unchanged. */
  function Replace(s: string, pat: string, rep: string): (r: string)
    ensures !Contains(s, pat) ==> r == s
  {
    match IndexOf(s, pat)
    case None => s
    case Some(p) => s[..p] + Substitution(rep, pat, s[..p], s[p + |pat|..]) + s[p + |pat|..]
  }

  /** Replacing the first occurrence: when `pat` first occurs right after
      `before`, and the replacement has no `$`, the result is `before`,
      then `rep`, then everything after that occurrence (later occurrences
      included, untouched). */
  lemma ReplaceFirst(before: string, pat: string, after: string, rep: string)
    requires '$' !in rep
    requires forall j :: 0 <= j < |before| ==> !OccursAt(before + pat + after, pat, j)
    ensures Replace(before + pat + after, pat, rep) == before + rep + after
  {
    var s := before + pat + after;
    assert OccursAt(s, pat, |before|) by {
      assert s[|before|..|before| + |pat|] == pat;
    }
    var p := IndexOf(s, pat);
    assert p == Some(|before|);
    assert s[..|before|] == before;
    assert s[|before| + |pat|..] == after;
    SubstitutionPlain(rep, pat, before, after);
  }

  // ---------------------------------------------------------------------
  // integers: decimal rendering and parseInt
  // ---------------------------------------------------------------------

  function DigitChar(d: int): char
    requires 0 <= d < 10
  {
    ('0' as int + d) as char
  }

  /** The value of a string of decimal digits, most significant first. */
  function DigitsValue(ds: string): nat
    requires AllDigits(ds)
  {
    if ds == [] then 0
    else DigitsValue(ds[..|ds| - 1]) * 10 + (ds[|ds| - 1] as int - '0' as int)
  }

  /** The decimal rendering of `n` (what a template literal `${n}` gives for
      a non-negative integer): a non-empty string of digits without a
      leading zero (unless it is `"0"`) whose value is `n`. */
  function Decimal(n: nat): (r: string)
    ensures r != [] && AllDigits(r)
    ensures DigitsValue(r) == n
    ensures r[0] == '0' ==> n == 0 && r == "0"
  {
    if n < 10 then [DigitChar(n)]
    else
      var r := Decimal(n / 10) + [DigitChar(n % 10)];
      assert r[..|r| - 1] == Decimal(n / 10);
      r
  }

  /** Two numbers have the same decimal rendering only if they are equal. */
  lemma DecimalInjective(m: nat, n: nat)
    ensures Decimal(m) == Decimal(n) <==> m == n
  {
  }

  /** The longest prefix of `s` made of decimal digits. */
  function LeadingDigits(s: string): (r: string)
    ensures |r| <= |s| && r == s[..|r|] && AllDigits(r)
    ensures |r| < |s| ==> !IsDigit(s[|r|])
  {
    if s != [] && IsDigit(s[0]) then
      var r := [s[0]] + LeadingDigits(s[1..]);
      r
    else []
  }

  /** `parseInt(s, 10)` (ECMA-262 section 19.2.5), with `None` for `NaN`:
      leading whitespace is skipped, one optional sign is read, then the
      longest run of decimal digits; no digits gives `NaN`. Everything after
      the digits is ignored. */
  function ParseInt(s: string): (r: Option<int>)
    ensures r.None? <==> LeadingDigits(SignStripped(TrimStart(s))) == []
    ensures r.Some? ==> var t := TrimStart(s);
                        if t != [] && t[0] == '-' then r.value <= 0 else r.value >= 0
  {
    var t := TrimStart(s);
    var sign := if t != [] && t[0] == '-' then -1 else 1;
    var ds := LeadingDigits(SignStripped(t));
    if ds == [] then None else Some(sign * DigitsValue(ds))
  }

  function SignStripped(t: string): string {
    if t != [] && (t[0] == '-' || t[0] == '+') then t[1..] else t
  }

  /** `parseInt` reads back what Decimal renders, whatever follows the digits. */
  lemma ParseIntDecimal(n: nat, tail: string)
    requires tail == [] || !IsDigit(tail[0])
    ensures ParseInt(Decimal(n) + tail) == Some(n)
  {
    var d := Decimal(n);
    var s := d + tail;
    assert !IsWhitespace(s[0]);
    assert TrimStart(s) == s;
    assert SignStripped(s) == s;
    LeadingDigitsOf(d, tail);
  }

  predicate AllZeros(s: string) {
    forall i :: 0 <= i < |s| ==> s[i] == '0'
  }

  /** `parseInt`'s value on padded, signed and zero-led input: whitespace
      before, one optional sign, any number of leading zeros and a decimal,
      followed by anything that is not a digit, parse to the decimal's
      value with the sign's sign. */
  lemma ParseIntValue(w: string, sg: string, z: string, n: nat, tail: string)
    requires AllWhitespace(w)
    requires sg == "" || sg == "+" || sg == "-"
    requires AllZeros(z)
    requires tail == [] || !IsDigit(tail[0])
    ensures ParseInt(w + sg + z + Decimal(n) + tail) == Some(if sg == "-" then -(n as int) else n)
  {
    var d := Decimal(n);
    var digits := z + d;
    assert digits != [] && AllDigits(digits) && DigitsValue(digits) == n by {
      ZerosValue(z, d);
    }
    assert w + sg + z + d + tail == w + sg + digits + tail;
    ParseIntPadded(w, sg, digits, tail);
  }

  /** Whitespace, a sign, digits and a non-digit: the digits' value,
      negated by `-`. */
  lemma ParseIntPadded(w: string, sg: string, digits: string, tail: string)
    requires AllWhitespace(w)
    requires sg == "" || sg == "+" || sg == "-"
    requires digits != [] && AllDigits(digits)
    requires tail == [] || !IsDigit(tail[0])
    ensures ParseInt(w + sg + digits + tail) == Some(if sg == "-" then -(DigitsValue(digits) as int) else DigitsValue(digits))
  {
    var rest := sg + digits + tail;
    assert w + sg + digits + tail == w + rest;
    assert !IsWhitespace(rest[0]) by {
      assert rest[0] == if sg != "" then sg[0] else digits[0];
    }
    ParseIntSkipsWhitespace(w, rest);
    ParseIntSigned(sg, digits, tail);
  }

  /** Leading whitespace does not change what `parseInt` reads. */
  lemma ParseIntSkipsWhitespace(w: string, s: string)
    requires AllWhitespace(w)
    requires s == [] || !IsWhitespace(s[0])
    ensures ParseInt(w + s) == ParseInt(s)
  {
    TrimStartSkips(w, s);
    TrimStartSkips([], s);
    assert [] + s == s;
  }

  /** A sign, a digit string and a non-digit: the digits' value, negated
      by `-`. */
  lemma ParseIntSigned(sg: string, digits: string, tail: string)
    requires sg == "" || sg == "+" || sg == "-"
    requires digits != [] && AllDigits(digits)
    requires tail == [] || !IsDigit(tail[0])
    ensures ParseInt(sg + digits + tail) == Some(if sg == "-" then -(DigitsValue(digits) as int) else DigitsValue(digits))
  {
    var rest := sg + digits + tail;
    var dt := digits + tail;
    assert rest != [] && rest[0] == (if sg != "" then sg[0] else digits[0]) && SignStripped(rest) == dt by {
      if sg == "" {
        assert rest == dt;
      } else {
        assert rest == [sg[0]] + dt;
      }
    }
    ParseIntOfParts(rest, sg == "-", digits, tail);
  }

  /** Reading a string that starts with its sign or its first digit. */
  lemma ParseIntOfParts(s: string, neg: bool, digits: string, tail: string)
    requires s != [] && (IsDigit(s[0]) || s[0] == '+' || s[0] == '-')
    requires (s[0] == '-') == neg
    requires SignStripped(s) == digits + tail
    requires digits != [] && AllDigits(digits)
    requires tail == [] || !IsDigit(tail[0])
    ensures ParseInt(s) == Some(if neg then -(DigitsValue(digits) as int) else DigitsValue(digits))
  {
    assert TrimStart(s) == s by {
      assert !IsWhitespace(s[0]);
    }
    LeadingDigitsOf(digits, tail);
    var v: int := DigitsValue(digits);
    if neg {
      assert ParseInt(s) == Some(-1 * v);
    } else {
      assert ParseInt(s) == Some(1 * v);
    }
  }

  /** Trimming skips exactly a whitespace prefix. */
  lemma {:induction false} TrimStartSkips(w: string, rest: string)
    requires AllWhitespace(w)
    requires rest == [] || !IsWhitespace(rest[0])
    ensures TrimStart(w + rest) == rest
  {
    if w == [] {
      assert w + rest == rest;
    } else {
      assert (w + rest)[1..] == w[1..] + rest;
      TrimStartSkips(w[1..], rest);
    }
  }

  /** Leading zeros do not change the value of a digit string. */
  lemma {:induction false} ZerosValue(z: string, d: string)
    requires AllZeros(z) && AllDigits(d)
    ensures AllDigits(z + d) && DigitsValue(z + d) == DigitsValue(d)
  {
    if d == [] {
      assert z + d == z;
      ZerosValueZero(z);
    } else {
      var zd := z + d;
      assert zd[..|zd| - 1] == z + d[..|d| - 1];
      ZerosValue(z, d[..|d| - 1]);
    }
  }

  lemma {:induction false} ZerosValueZero(z: string)
    requires AllZeros(z)
    ensures AllDigits(z) && DigitsValue(z) == 0
  {
    if z != [] {
      ZerosValueZero(z[..|z| - 1]);
    }
  }

  lemma {:induction false} LeadingDigitsOf(d: string, tail: string)
    requires AllDigits(d)
    requires tail == [] || !IsDigit(tail[0])
    ensures LeadingDigits(d + tail) == d
  {
    if d != [] {
      assert (d + tail)[1..] == d[1..] + tail;
      LeadingDigitsOf(d[1..], tail);
      assert [d[0]] + d[1..] == d;
    }
  }
}
