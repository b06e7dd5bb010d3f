/** The string operations the program relies on: JavaScript's whitespace class, `toLowerCase`,
    `trim`, `split(/\s+/)`, the order `localeCompare` stands for, and the decimal forms of
    `String(n)` and `Number(s)` for integers. */
module Strings {
  import opened Wrappers

  /** The characters `\s` and `trim` treat as white space (space, no-break space, the byte-order
      mark, and tab, line feed, vertical tab, form feed and carriage return). */
  predicate IsSpace(c: char) {
    c == ' ' || c == '\U{00A0}' || c == '\U{FEFF}' || '\t' <= c <= '\r'
  }

  function LowerChar(c: char): char {
    if 'A' <= c <= 'Z' then (c as int - 'A' as int + 'a' as int) as char else c
  }

  /** `toLowerCase` on the ASCII letters: the result has no upper-case letter, each upper-case
      letter of `s` becomes the lower-case letter at the same position, and every other
      character is kept. */
  function ToLower(s: string): (r: string)
    ensures |r| == |s|
    ensures forall i :: 0 <= i < |r| ==> !('A' <= r[i] <= 'Z')
    ensures forall i :: 0 <= i < |s| && !('A' <= s[i] <= 'Z') ==> r[i] == s[i]
    ensures forall i :: 0 <= i < |s| && 'A' <= s[i] <= 'Z' ==> 'a' <= r[i] <= 'z' && r[i] as int - s[i] as int == 'a' as int - 'A' as int
  {
    seq(|s|, i requires 0 <= i < |s| => LowerChar(s[i]))
  }

  /** Lower-casing twice is lower-casing once. */
  lemma ToLowerIdempotent(s: string)
    ensures ToLower(ToLower(s)) == ToLower(s)
  {
    var r := ToLower(s);
    assert forall i :: 0 <= i < |r| ==> ToLower(r)[i] == r[i];
  }

  /** `trimStart`: drops the leading white space, and nothing else. */
  function TrimStart(s: string): (r: string)
    ensures |r| <= |s|
    ensures r == [] || !IsSpace(r[0])
  {
    if s != [] && IsSpace(s[0]) then TrimStart(s[1..]) else s
  }

  /** `trimStart` keeps a suffix of `s`, and what it drops is white space. */
  lemma {:induction false} TrimStartDrops(s: string)
    ensures TrimStart(s) == s[|s| - |TrimStart(s)|..]
    ensures forall k :: 0 <= k < |s| - |TrimStart(s)| ==> IsSpace(s[k])
  {
    if s != [] && IsSpace(s[0]) {
      TrimStartDrops(s[1..]);
      assert s[1..][|s| - 1 - |TrimStart(s)|..] == s[|s| - |TrimStart(s)|..];
      forall k | 0 <= k < |s| - |TrimStart(s)| ensures IsSpace(s[k]) {
        if k > 0 {
          assert s[k] == s[1..][k - 1];
        }
      }
    }
  }

  /** `trimEnd`: drops the trailing white space, and nothing else. */
  function TrimEnd(s: string): (r: string)
    ensures |r| <= |s|
    ensures r == [] || !IsSpace(r[|r| - 1])
  {
    if s != [] && IsSpace(s[|s| - 1]) then TrimEnd(s[..|s| - 1]) else s
  }

  /** `trimEnd` keeps a prefix of `s`, and what it drops is white space. */
  lemma {:induction false} TrimEndDrops(s: string)
    ensures TrimEnd(s) == s[..|TrimEnd(s)|]
    ensures forall k :: |TrimEnd(s)| <= k < |s| ==> IsSpace(s[k])
  {
    if s != [] && IsSpace(s[|s| - 1]) {
      TrimEndDrops(s[..|s| - 1]);
      assert s[..|s| - 1][..|TrimEnd(s)|] == s[..|TrimEnd(s)|];
      forall k | |TrimEnd(s)| <= k < |s| ensures IsSpace(s[k]) {
        if k < |s| - 1 {
          assert s[k] == s[..|s| - 1][k];
        }
      }
    }
  }

  /** `trim`: neither end of the result is white space. */
  function Trim(s: string): (r: string)
    ensures r == [] || (!IsSpace(r[0]) && !IsSpace(r[|r| - 1]))
  {
    var front := TrimStart(s);
    var r := TrimEnd(front);
    TrimEndDrops(front);
    assert r == [] || r[0] == front[0];
    r
  }

  /** `s.split(/\s+/)`: the fields between maximal runs of white space; an empty string gives one
      empty field, and leading or trailing white space gives an empty first or last field. */
  function Split(s: string): (r: seq<string>)
    ensures |r| >= 1
    decreases |s|, 0
  {
    if s == [] then [""]
    else if IsSpace(s[0]) then [""] + Split(TrimStart(s))
    else
      var rest := Split(s[1..]);
      [[s[0]] + rest[0]] + rest[1..]
  }

  predicate HasSpace(s: string) {
    exists k :: 0 <= k < |s| && IsSpace(s[k])
  }

  /** Splitting gives at least two fields exactly when the string contains white space. */
  lemma {:induction false} SplitCount(s: string)
    ensures |Split(s)| >= 2 <==> HasSpace(s)
    decreases |s|
  {
    if s != [] {
      if IsSpace(s[0]) {
        assert |Split(s)| == 1 + |Split(TrimStart(s))|;
      } else {
        SplitCount(s[1..]);
        assert HasSpace(s) <==> HasSpace(s[1..]) by {
          if HasSpace(s) {
            var k :| 0 <= k < |s| && IsSpace(s[k]);
            assert s[1..][k - 1] == s[k];
          }
          if HasSpace(s[1..]) {
            var k :| 0 <= k < |s| - 1 && IsSpace(s[1..][k]);
            assert s[k + 1] == s[1..][k];
          }
        }
      }
    }
  }

  /** A name that, once trimmed, splits into at least two words. */
  predicate IsMultiWord(name: string) {
    |Split(Trim(name))| >= 2
  }

  /** Some white space stands between two other characters of `s`. */
  predicate HasInnerSpace(s: string) {
    exists i, j, k :: 0 <= i < j < k < |s| && !IsSpace(s[i]) && IsSpace(s[j]) && !IsSpace(s[k])
  }

  /** Where `Trim(s)` starts in `s`: after its leading whitespace. */
  function TrimOffset(s: string): nat {
    |s| - |TrimStart(s)|
  }

  /** The characters `trim` keeps are those of `s` from `TrimOffset(s)` on, in place. */
  lemma TrimKeeps(s: string)
    ensures TrimOffset(s) + |Trim(s)| <= |s|
    ensures forall m :: 0 <= m < |Trim(s)| ==> Trim(s)[m] == s[TrimOffset(s) + m]
  {
    var off := TrimOffset(s);
    var front := TrimStart(s);
    var t := TrimEnd(front);
    assert t == Trim(s);
    TrimStartDrops(s);
    TrimEndDrops(front);
    PrefixOfSuffix(s, off, front, t);
  }

  /** A prefix `t` of the suffix `front` of `s` from `off` on is the slice of `s` from `off`. */
  lemma PrefixOfSuffix(s: string, off: nat, front: string, t: string)
    requires off <= |s| && front == s[off..] && |t| <= |front| && t == front[..|t|]
    ensures off + |t| <= |s|
    ensures forall m :: 0 <= m < |t| ==> t[m] == s[off + m]
  {
  }

  /** Everything `trim` drops, before and after the kept characters, is white space. */
  lemma TrimDrops(s: string)
    ensures TrimOffset(s) + |Trim(s)| <= |s|
    ensures forall m :: 0 <= m < TrimOffset(s) ==> IsSpace(s[m])
    ensures forall m :: TrimOffset(s) + |Trim(s)| <= m < |s| ==> IsSpace(s[m])
  {
    var off := TrimOffset(s);
    var front := TrimStart(s);
    var t := TrimEnd(front);
    assert t == Trim(s);
    TrimStartDrops(s);
    TrimEndDrops(front);
    SpacesAfterPrefix(s, off, front, t);
  }

  /** White space after a prefix `t` of the suffix `front` of `s` is white space in `s`. */
  lemma SpacesAfterPrefix(s: string, off: nat, front: string, t: string)
    requires off <= |s| && front == s[off..] && |t| <= |front|
    requires forall k :: |t| <= k < |front| ==> IsSpace(front[k])
    ensures forall m :: off + |t| <= m < |s| ==> IsSpace(s[m])
  {
    forall m | off + |t| <= m < |s| ensures IsSpace(s[m]) {
      assert s[m] == front[m - off];
    }
  }

  /** `Trim(s)` is the slice of `s` between its leading and its trailing whitespace. */
  lemma TrimSlice(s: string)
    ensures TrimOffset(s) + |Trim(s)| <= |s|
    ensures Trim(s) == s[TrimOffset(s)..TrimOffset(s) + |Trim(s)|]
    ensures forall m :: 0 <= m < TrimOffset(s) ==> IsSpace(s[m])
    ensures forall m :: TrimOffset(s) + |Trim(s)| <= m < |s| ==> IsSpace(s[m])
  {
    TrimKeeps(s);
    TrimDrops(s);
    PointwiseSlice(s, TrimOffset(s), Trim(s));
  }

  /** A sequence that agrees with `s` from `off` on, index by index, is that slice of `s`. */
  lemma PointwiseSlice(s: string, off: nat, q: string)
    requires off + |q| <= |s|
    requires forall m :: 0 <= m < |q| ==> q[m] == s[off + m]
    ensures q == s[off..off + |q|]
  {
    var slice := s[off..off + |q|];
    forall m | 0 <= m < |q|
      ensures q[m] == slice[m]
    {
      assert slice[m] == s[off + m];
    }
  }

  /** White space inside a slice of `name` whose ends are not white space lies between two
      other characters of `name`. */
  lemma InnerSpaceOfSlice(name: string, t: string, off: nat)
    requires off + |t| <= |name|
    requires forall m :: 0 <= m < |t| ==> t[m] == name[off + m]
    requires t == [] || (!IsSpace(t[0]) && !IsSpace(t[|t| - 1]))
    requires HasSpace(t)
    ensures HasInnerSpace(name)
  {
    var m :| 0 <= m < |t| && IsSpace(t[m]);
    assert 0 < m < |t| - 1;
    assert name[off] == t[0] && name[off + m] == t[m] && name[off + |t| - 1] == t[|t| - 1];
    InnerSpaceAt(name, off, off + m, off + |t| - 1);
  }

  /** Three positions that show inner white space. */
  lemma InnerSpaceAt(s: string, i: nat, j: nat, k: nat)
    requires i < j < k < |s| && !IsSpace(s[i]) && IsSpace(s[j]) && !IsSpace(s[k])
    ensures HasInnerSpace(s)
  {
  }

  /** White space between two other characters of `name` lies inside any slice outside which
      `name` has only white space. */
  lemma SpaceOfSlice(name: string, t: string, off: nat)
    requires off + |t| <= |name|
    requires forall m :: 0 <= m < |t| ==> t[m] == name[off + m]
    requires forall m :: 0 <= m < off ==> IsSpace(name[m])
    requires forall m :: off + |t| <= m < |name| ==> IsSpace(name[m])
    requires HasInnerSpace(name)
    ensures HasSpace(t)
  {
    var i, j, k :| 0 <= i < j < k < |name| && !IsSpace(name[i]) && IsSpace(name[j]) && !IsSpace(name[k]);
    assert off <= i;
    assert k < off + |t|;
    assert t[j - off] == name[j];
  }

  lemma InnerSpaceOfTrimmed(name: string)
    requires HasSpace(Trim(name))
    ensures HasInnerSpace(name)
  {
    TrimKeeps(name);
    InnerSpaceOfSlice(name, Trim(name), TrimOffset(name));
  }

  lemma TrimmedOfInnerSpace(name: string)
    requires HasInnerSpace(name)
    ensures HasSpace(Trim(name))
  {
    TrimKeeps(name);
    TrimDrops(name);
    SpaceOfSlice(name, Trim(name), TrimOffset(name));
  }

  /** A name has two words exactly when some white space stands between two other characters. */
  lemma MultiWordIffInnerSpace(name: string)
    ensures IsMultiWord(name) <==> HasInnerSpace(name)
  {
    SplitCount(Trim(name));
    if IsMultiWord(name) {
      InnerSpaceOfTrimmed(name);
    }
    if HasInnerSpace(name) {
      TrimmedOfInnerSpace(name);
    }
  }

  /** Lexicographic comparison by character code: the order `localeCompare` stands for. */
  function LexCompare(a: string, b: string): (r: int)
    ensures -1 <= r <= 1
  {
    if a == [] && b == [] then 0
    else if a == [] then -1
    else if b == [] then 1
    else if a[0] < b[0] then -1
    else if a[0] > b[0] then 1
    else LexCompare(a[1..], b[1..])
  }

  lemma {:induction false} LexAntisymmetric(a: string, b: string)
    ensures LexCompare(a, b) == -LexCompare(b, a)
  {
    if a != [] && b != [] && a[0] == b[0] {
      LexAntisymmetric(a[1..], b[1..]);
    }
  }

  /** Only equal strings compare equal. */
  lemma {:induction false} LexZeroIffEqual(a: string, b: string)
    ensures LexCompare(a, b) == 0 <==> a == b
  {
    if a != [] && b != [] && a[0] == b[0] {
      LexZeroIffEqual(a[1..], b[1..]);
      assert a == [a[0]] + a[1..] && b == [b[0]] + b[1..];
    }
  }

  lemma {:induction false} LexTransitive(a: string, b: string, c: string)
    requires LexCompare(a, b) <= 0 && LexCompare(b, c) <= 0
    ensures LexCompare(a, c) <= 0
  {
    if a != [] && b != [] && c != [] && a[0] == b[0] && b[0] == c[0] {
      LexTransitive(a[1..], b[1..], c[1..]);
    }
  }

  function DigitChar(d: int): char
    requires 0 <= d < 10
  {
    ('0' as int + d) as char
  }

  predicate IsDigit(c: char) {
    '0' <= c <= '9'
  }

  /** The decimal digits of `n`, without leading zeros. */
  function Digits(n: nat): (r: string)
    ensures |r| >= 1 && forall i :: 0 <= i < |r| ==> IsDigit(r[i])
  {
    if n < 10 then [DigitChar(n)] else Digits(n / 10) + [DigitChar(n % 10)]
  }

  /** `String(n)` for an integer. */
  function DecimalString(n: int): string {
    if n < 0 then "-" + Digits(-n) else Digits(n)
  }

  /** The value of a non-empty run of decimal digits. */
  function DigitsValue(s: string): nat
    requires forall i :: 0 <= i < |s| ==> IsDigit(s[i])
  {
    if s == [] then 0
    else
      var d := s[|s| - 1] as int - '0' as int;
      assert IsDigit(s[|s| - 1]);
      DigitsValue(s[..|s| - 1]) * 10 + d
  }

  predicate AllDigits(s: string) {
    s != [] && forall i :: 0 <= i < |s| ==> IsDigit(s[i])
  }

  /** `Number(s)` for strings that are white space around an optionally signed run of decimal
      digits; `None` stands for NaN. The empty (or blank) string is 0. */
  function ToNumber(s: string): Option<int> {
    var t := Trim(s);
    if t == [] then Some(0)
    else if (t[0] == '-' || t[0] == '+') && AllDigits(t[1..]) then
      var v: int := DigitsValue(t[1..]);
      Some(if t[0] == '-' then -v else v)
    else if AllDigits(t) then Some(DigitsValue(t))
    else None
  }

  lemma {:induction false} DigitsValueOfDigits(n: nat)
    ensures DigitsValue(Digits(n)) == n
  {
    if n >= 10 {
      DigitsValueOfDigits(n / 10);
      var d := Digits(n / 10) + [DigitChar(n % 10)];
      assert d[..|d| - 1] == Digits(n / 10);
    }
  }

  lemma NoSpaceTrims(s: string)
    requires s != [] && !IsSpace(s[0]) && !IsSpace(s[|s| - 1])
    ensures Trim(s) == s
  {
    assert TrimStart(s) == s;
  }

  /** A run of digits reads back as its value. */
  lemma ToNumberOfDigits(d: string)
    requires AllDigits(d)
    ensures ToNumber(d) == Some(DigitsValue(d))
  {
    assert IsDigit(d[0]) && IsDigit(d[|d| - 1]);
    NoSpaceTrims(d);
  }

  /** A minus sign before a run of digits reads back as the negated value. */
  lemma ToNumberOfNegative(d: string)
    requires AllDigits(d)
    ensures ToNumber("-" + d) == Some(-(DigitsValue(d) as int))
  {
    var t := "-" + d;
    assert t[0] == '-' && t[1..] == d;
    assert IsDigit(d[|d| - 1]) && t[|t| - 1] == d[|d| - 1];
    NoSpaceTrims(t);
  }

  /** `Number(String(n)) == n`: the decimal form of an integer reads back as that integer. */
  lemma DecimalRoundTrip(n: int)
    ensures ToNumber(DecimalString(n)) == Some(n)
  {
    var m: nat := if n < 0 then -n else n;
    DigitsValueOfDigits(m);
    if n < 0 {
      ToNumberOfNegative(Digits(m));
    } else {
      ToNumberOfDigits(Digits(m));
    }
  }
}
