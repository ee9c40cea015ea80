/**
 * String helpers shared by the model: Rust's `trim`, ASCII case mapping,
 * UTF-8 byte length (`str::len`), `replace`, `split`/`join`, decimal digit
 * strings and the space-every-three-digits grouping used by the formatters.
 * A Rust `String` is a `seq<char>` of Unicode scalar values.
 */
module Text {

  // ---------------------------------------------------------------------
  // Whitespace and trim
  // ---------------------------------------------------------------------

  /** The Unicode White_Space property, which is what `str::trim` removes. */
  predicate IsWhitespace(c: char) {
    ('\U{0009}' <= c <= '\U{000D}') || c == ' ' || c == '\U{0085}' || c == '\U{00A0}' ||
    c == '\U{1680}' || ('\U{2000}' <= c <= '\U{200A}') || c == '\U{2028}' || c == '\U{2029}' ||
    c == '\U{202F}' || c == '\U{205F}' || c == '\U{3000}'
  }

  function TrimStart(s: string): (r: string)
    ensures |r| <= |s| && r == s[|s| - |r|..]
    ensures r == [] || !IsWhitespace(r[0])
  {
    if s == [] || !IsWhitespace(s[0]) then s else TrimStart(s[1..])
  }

  function TrimEnd(s: string): (r: string)
    ensures |r| <= |s| && r == s[..|r|]
    ensures r == [] || !IsWhitespace(r[|r| - 1])
  {
    if s == [] || !IsWhitespace(s[|s| - 1]) then s else TrimEnd(s[..|s| - 1])
  }

  /** `str::trim` */
  function Trim(s: string): string {
    TrimEnd(TrimStart(s))
  }

  predicate IsBlank(s: string) {
    forall i :: 0 <= i < |s| ==> IsWhitespace(s[i])
  }

  /** Trimming leaves nothing exactly when the string is all whitespace. */
  lemma {:induction false} TrimEmptyIffBlank(s: string)
    ensures Trim(s) == [] <==> IsBlank(s)
  {
    TrimStartBlank(s);
    var t := TrimStart(s);
    if t != [] {
      assert !IsWhitespace(t[0]);
      assert TrimEnd(t) != [] by {
        TrimEndKeepsNonBlank(t);
      }
    }
  }

  /** A whitespace prefix is dropped entirely by `trim_start`. */
  lemma {:induction false} TrimStartSkips(ws: string, t: string)
    requires IsBlank(ws)
    ensures TrimStart(ws + t) == TrimStart(t)
  {
    if ws == [] {
      assert ws + t == t;
    } else {
      assert (ws + t)[0] == ws[0];
      assert (ws + t)[1..] == ws[1..] + t;
      assert IsBlank(ws[1..]) by {
        forall i | 0 <= i < |ws[1..]| ensures IsWhitespace(ws[1..][i]) {
          assert ws[1..][i] == ws[i + 1];
        }
      }
      TrimStartSkips(ws[1..], t);
    }
  }

  lemma {:induction false} TrimStartBlank(s: string)
    ensures TrimStart(s) == [] <==> IsBlank(s)
  {
    if s != [] {
      if IsWhitespace(s[0]) {
        TrimStartBlank(s[1..]);
        if IsBlank(s[1..]) {
          forall i | 0 <= i < |s|
            ensures IsWhitespace(s[i])
          {
            if i > 0 {
              assert s[i] == s[1..][i - 1];
            }
          }
        } else {
          var j :| 0 <= j < |s[1..]| && !IsWhitespace(s[1..][j]);
          assert s[j + 1] == s[1..][j];
        }
      } else {
        assert !IsWhitespace(s[0]);
      }
    }
  }

  lemma {:induction false} TrimEndKeepsNonBlank(s: string)
    requires s != [] && !IsWhitespace(s[0])
    ensures TrimEnd(s) != []
  {
    if IsWhitespace(s[|s| - 1]) {
      TrimEndKeepsNonBlank(s[..|s| - 1]);
    }
  }

  // ---------------------------------------------------------------------
  // ASCII case mapping
  // ---------------------------------------------------------------------

  function AsciiUpper(c: char): (r: char)
    ensures ('a' <= c <= 'z') ==> r as int == c as int - 32
    ensures !('a' <= c <= 'z') ==> r == c
  {
    if 'a' <= c <= 'z' then (c as int - 32) as char else c
  }

  function AsciiLower(c: char): (r: char)
    ensures ('A' <= c <= 'Z') ==> r as int == c as int + 32
    ensures !('A' <= c <= 'Z') ==> r == c
  {
    if 'A' <= c <= 'Z' then (c as int + 32) as char else c
  }

  function Upper(s: string): (r: string)
    ensures |r| == |s| && forall i :: 0 <= i < |s| ==> r[i] == AsciiUpper(s[i])
  {
    seq(|s|, i requires 0 <= i < |s| => AsciiUpper(s[i]))
  }

  function Lower(s: string): (r: string)
    ensures |r| == |s| && forall i :: 0 <= i < |s| ==> r[i] == AsciiLower(s[i])
  {
    seq(|s|, i requires 0 <= i < |s| => AsciiLower(s[i]))
  }

  // ---------------------------------------------------------------------
  // UTF-8 length
  // ---------------------------------------------------------------------

  /** Number of bytes the UTF-8 encoding of `c` takes. */
  function Utf8Width(c: char): (n: nat)
    ensures 1 <= n <= 4
  {
    if c as int < 0x80 then 1
    else if c as int < 0x800 then 2
    else if c as int < 0x10000 then 3
    else 4
  }

  /** `str::len`: the length in bytes of the UTF-8 encoding. */
  function Utf8Len(s: string): (n: nat)
    ensures |s| <= n <= 4 * |s|
  {
    if s == [] then 0 else Utf8Width(s[0]) + Utf8Len(s[1..])
  }

  // ---------------------------------------------------------------------
  // replace
  // ---------------------------------------------------------------------

  /** `str::replace(from, to)` for single characters. */
  function Replace(s: string, from: char, to: char): (r: string)
    ensures |r| == |s|
    ensures forall i :: 0 <= i < |s| ==> r[i] == (if s[i] == from then to else s[i])
  {
    seq(|s|, i requires 0 <= i < |s| => if s[i] == from then to else s[i])
  }

  /** Concatenation regroups freely. */
  lemma ConcatAssociative<T>(a: seq<T>, b: seq<T>, c: seq<T>)
    ensures (a + b) + c == a + (b + c)
  {
  }

  /** Replacing in a concatenation replaces in each part. */
  lemma ReplaceConcat(a: string, b: string, from: char, to: char)
    ensures Replace(a + b, from, to) == Replace(a, from, to) + Replace(b, from, to)
  {
    var l, r := Replace(a + b, from, to), Replace(a, from, to) + Replace(b, from, to);
    forall i | 0 <= i < |l| ensures l[i] == r[i] {
      if i >= |a| {
        assert (a + b)[i] == b[i - |a|];
      }
    }
  }

  // ---------------------------------------------------------------------
  // split and join
  // ---------------------------------------------------------------------

  /** `str::split(sep)`: always at least one piece, none containing `sep`. */
  function Split(s: string, sep: char): (parts: seq<string>)
    ensures |parts| >= 1
    ensures forall k :: 0 <= k < |parts| ==> sep !in parts[k]
  {
    if s == [] then [""]
    else if s[0] == sep then [""] + Split(s[1..], sep)
    else
      var rest := Split(s[1..], sep);
      [[s[0]] + rest[0]] + rest[1..]
  }

  /** `[String]::join(sep)` */
  function Join(parts: seq<string>, sep: char): string {
    if parts == [] then ""
    else if |parts| == 1 then parts[0]
    else parts[0] + [sep] + Join(parts[1..], sep)
  }

  /** Splitting what was joined gives the pieces back, when no piece holds the separator. */
  lemma {:induction false} SplitJoin(parts: seq<string>, sep: char)
    requires |parts| >= 1
    requires forall k :: 0 <= k < |parts| ==> sep !in parts[k]
    ensures Split(Join(parts, sep), sep) == parts
  {
    if |parts| == 1 {
      SplitNoSep(parts[0], sep);
    } else {
      SplitJoin(parts[1..], sep);
      SplitPrefix(parts[0], Join(parts[1..], sep), sep);
    }
  }

  lemma {:induction false} SplitNoSep(s: string, sep: char)
    requires sep !in s
    ensures Split(s, sep) == [s]
  {
    if s != [] {
      assert sep !in s[1..] by {
        forall i | 0 <= i < |s[1..]| ensures s[1..][i] != sep {
          assert s[1..][i] == s[i + 1];
        }
      }
      SplitNoSep(s[1..], sep);
      assert [s[0]] + s[1..] == s;
    }
  }

  lemma {:induction false} SplitPrefix(a: string, b: string, sep: char)
    requires sep !in a
    ensures Split(a + [sep] + b, sep) == [a] + Split(b, sep)
  {
    if a == [] {
      assert a + [sep] + b == [sep] + b;
      assert ([sep] + b)[1..] == b;
    } else {
      SplitPrefix(a[1..], b, sep);
      assert (a + [sep] + b)[1..] == a[1..] + [sep] + b;
      assert [a[0]] + a[1..] == a;
    }
  }

  // ---------------------------------------------------------------------
  // Decimal digits
  // ---------------------------------------------------------------------

  predicate IsDigit(c: char) {
    '0' <= c <= '9'
  }

  predicate AllDigits(s: string) {
    forall i :: 0 <= i < |s| ==> IsDigit(s[i])
  }

  function DigitChar(d: nat): (c: char)
    requires d < 10
    ensures IsDigit(c) && c as int - '0' as int == d
  {
    ('0' as int + d) as char
  }

  function DigitValue(c: char): (d: nat)
    requires IsDigit(c)
    ensures d < 10 && DigitChar(d) == c
  {
    c as int - '0' as int
  }

  /** Rust's `to_string` / `{}` of an unsigned integer: no leading zeros. */
  function NatToDigits(n: nat): (s: string)
    ensures |s| >= 1 && AllDigits(s)
    ensures (s[0] == '0') <==> n == 0
  {
    if n < 10 then [DigitChar(n)] else NatToDigits(n / 10) + [DigitChar(n % 10)]
  }

  /** The number a digit string denotes (leading zeros allowed). */
  function DigitsValue(s: string): nat
    requires AllDigits(s)
  {
    if s == [] then 0 else DigitsValue(s[..|s| - 1]) * 10 + DigitValue(s[|s| - 1])
  }

  lemma {:induction false} DigitsRoundTrip(n: nat)
    ensures DigitsValue(NatToDigits(n)) == n
  {
    if n >= 10 {
      DigitsRoundTrip(n / 10);
      var s := NatToDigits(n);
      assert s[..|s| - 1] == NatToDigits(n / 10);
    }
  }

  /** Different numbers print differently. */
  lemma NatToDigitsInjective(a: nat, b: nat)
    requires NatToDigits(a) == NatToDigits(b)
    ensures a == b
  {
    DigitsRoundTrip(a);
    DigitsRoundTrip(b);
  }

  function Zeros(n: nat): (s: string)
    ensures |s| == n && AllDigits(s)
    ensures forall i :: 0 <= i < n ==> s[i] == '0'
  {
    seq(n, i => '0')
  }

  /** Zero-padding on the left up to `width` characters (`{:0width}`). */
  function PadZeros(s: string, width: nat): (r: string)
    ensures |r| == if |s| < width then width else |s|
  {
    if |s| < width then Zeros(width - |s|) + s else s
  }

  lemma {:induction false} LeadingZerosValue(z: nat, s: string)
    requires AllDigits(s)
    ensures AllDigits(Zeros(z) + s)
    ensures DigitsValue(Zeros(z) + s) == DigitsValue(s)
  {
    if s == [] {
      assert Zeros(z) + s == Zeros(z);
      ZerosValue(z);
    } else {
      var t := Zeros(z) + s;
      assert t[..|t| - 1] == Zeros(z) + s[..|s| - 1];
      LeadingZerosValue(z, s[..|s| - 1]);
    }
  }

  lemma {:induction false} ZerosValue(z: nat)
    ensures DigitsValue(Zeros(z)) == 0
  {
    if z > 0 {
      assert Zeros(z)[..z - 1] == Zeros(z - 1);
      ZerosValue(z - 1);
    }
  }

  /** The value of a zero-padded number is the number. */
  lemma PaddedValue(n: nat, width: nat)
    ensures AllDigits(PadZeros(NatToDigits(n), width))
    ensures DigitsValue(PadZeros(NatToDigits(n), width)) == n
  {
    DigitsRoundTrip(n);
    var s := NatToDigits(n);
    if |s| < width {
      LeadingZerosValue(width - |s|, s);
    }
  }

  // ---------------------------------------------------------------------
  // Thousands grouping
  // ---------------------------------------------------------------------

  function Reverse(s: string): (r: string)
    ensures |r| == |s|
  {
    if s == [] then [] else Reverse(s[1..]) + [s[0]]
  }

  lemma {:induction false} ReverseConcat(a: string, b: string)
    ensures Reverse(a + b) == Reverse(b) + Reverse(a)
  {
    if a == [] {
      assert a + b == b;
    } else {
      ReverseConcat(a[1..], b);
      assert (a + b)[1..] == a[1..] + b;
    }
  }

  lemma {:induction false} ReverseReverse(s: string)
    ensures Reverse(Reverse(s)) == s
  {
    if s != [] {
      ReverseReverse(s[1..]);
      ReverseConcat(Reverse(s[1..]), [s[0]]);
    }
  }

  /** The piece `flat_map` emits for the character at reversed position `k`. */
  function GroupPiece(k: nat, c: char): string {
    if k > 0 && k % 3 == 0 then [' ', c] else [c]
  }

  /** `rev().enumerate().flat_map(...)` over the reversed string, numbering from `k`. */
  function GroupRev(r: string, k: nat): string {
    if r == [] then [] else GroupPiece(k, r[0]) + GroupRev(r[1..], k + 1)
  }

  /**
   * The integer-part grouping of `Balance::format_value` and
   * `Currency::format_amount`: reverse, insert a space before every third
   * character counted from the right (but not the first), reverse back.
   */
  function Grouped(s: string): string {
    Reverse(GroupRev(Reverse(s), 0))
  }

  /** The same grouping stated from the left: groups of three, separated by single spaces. */
  function GroupedByThrees(s: string): (r: string)
    decreases |s|
  {
    if |s| <= 3 then s else GroupedByThrees(s[..|s| - 3]) + [' '] + s[|s| - 3..]
  }

  lemma {:induction false} GroupRevShift(r: string, k: nat)
    requires k >= 1
    ensures GroupRev(r, k + 3) == GroupRev(r, k)
  {
    if r != [] {
      GroupRevShift(r[1..], k + 1);
    }
  }

  lemma GroupRevThree(r: string)
    requires r != []
    ensures GroupRev(r, 3) == [' '] + GroupRev(r, 0)
  {
    GroupRevShift(r[1..], 1);
  }

  /** Up to three characters get no separator. */
  lemma GroupedShort(s: string)
    requires |s| <= 3
    ensures Grouped(s) == s
  {
    var r := Reverse(s);
    assert GroupRev(r, 0) == r by {
      if |r| > 0 {
        if |r| > 1 {
          if |r| > 2 {
            assert GroupRev(r[2..], 2) == r[2..];
          }
          assert GroupRev(r[1..], 1) == r[1..];
        }
        assert GroupRev(r, 0) == [r[0]] + r[1..];
      }
    }
    ReverseReverse(s);
  }

  /** The first three reversed characters are copied unchanged; numbering then continues at three. */
  lemma GroupRevFront(rb: string, rf: string)
    requires |rb| == 3
    ensures GroupRev(rb + rf, 0) == rb + GroupRev(rf, 3)
  {
    var r := rb + rf;
    assert r[0] == rb[0] && r[1] == rb[1] && r[2] == rb[2];
    assert r[1..][1..][1..] == rf;
    calc {
      GroupRev(r, 0);
      [r[0]] + GroupRev(r[1..], 1);
      [r[0]] + ([r[1]] + GroupRev(r[1..][1..], 2));
      [r[0]] + ([r[1]] + ([r[2]] + GroupRev(rf, 3)));
      { assert [r[0]] + ([r[1]] + ([r[2]] + GroupRev(rf, 3))) == [rb[0], rb[1], rb[2]] + GroupRev(rf, 3);
        assert [rb[0], rb[1], rb[2]] == rb; }
      rb + GroupRev(rf, 3);
    }
  }

  /** Grouping a string whose last three characters are `back` separates them from the grouped front. */
  lemma GroupedSplit(front: string, back: string)
    requires front != [] && |back| == 3
    ensures Grouped(front + back) == Grouped(front) + [' '] + back
  {
    var rb, rf := Reverse(back), Reverse(front);
    ReverseConcat(front, back);
    GroupRevFront(rb, rf);
    GroupRevThree(rf);
    var g := GroupRev(rf, 0);
    assert GroupRev(Reverse(front + back), 0) == rb + ([' '] + g);
    ReverseConcat(rb, [' '] + g);
    ReverseConcat([' '], g);
    ReverseReverse(back);
    assert Reverse([' ']) == [' '] by {
      assert [' '][1..] == [];
    }
  }

  /** The iterator chain and the left-to-right description agree on every input. */
  lemma {:induction false} GroupedIsByThrees(s: string)
    ensures Grouped(s) == GroupedByThrees(s)
    decreases |s|
  {
    if |s| <= 3 {
      GroupedShort(s);
    } else {
      var front, back := s[..|s| - 3], s[|s| - 3..];
      assert s == front + back;
      GroupedSplit(front, back);
      GroupedIsByThrees(front);
    }
  }

  /** `s` with every ' ' deleted. */
  function RemoveSpaces(s: string): (r: string)
    ensures ' ' !in r
  {
    if s == [] then [] else (if s[0] == ' ' then [] else [s[0]]) + RemoveSpaces(s[1..])
  }

  lemma {:induction false} RemoveSpacesConcat(a: string, b: string)
    ensures RemoveSpaces(a + b) == RemoveSpaces(a) + RemoveSpaces(b)
  {
    if a == [] {
      assert a + b == b;
    } else {
      var head := if a[0] == ' ' then [] else [a[0]];
      assert (a + b)[0] == a[0] && (a + b)[1..] == a[1..] + b;
      assert RemoveSpaces(a + b) == head + RemoveSpaces(a[1..] + b);
      RemoveSpacesConcat(a[1..], b);
      assert head + (RemoveSpaces(a[1..]) + RemoveSpaces(b)) == (head + RemoveSpaces(a[1..])) + RemoveSpaces(b);
    }
  }

  lemma {:induction false} RemoveSpacesNone(s: string)
    requires ' ' !in s
    ensures RemoveSpaces(s) == s
  {
    if s != [] {
      RemoveSpacesNone(s[1..]);
    }
  }

  /** Deleting the separators from a grouped string gives back the original digits. */
  lemma {:induction false} GroupedStripsBack(s: string)
    requires ' ' !in s
    ensures RemoveSpaces(Grouped(s)) == s
    decreases |s|
  {
    GroupedIsByThrees(s);
    if |s| <= 3 {
      RemoveSpacesNone(s);
    } else {
      var front, back := s[..|s| - 3], s[|s| - 3..];
      assert s == front + back;
      GroupedStripsBack(front);
      GroupedIsByThrees(front);
      RemoveSpacesConcat(GroupedByThrees(front) + [' '], back);
      RemoveSpacesConcat(GroupedByThrees(front), [' ']);
      RemoveSpacesNone(back);
    }
  }

  /** Every run between separators has three characters, except the first, which has one to three. */
  lemma {:induction false} GroupedLength(s: string)
    requires s != []
    ensures |Grouped(s)| == |s| + (|s| - 1) / 3
    decreases |s|
  {
    GroupedIsByThrees(s);
    if |s| > 3 {
      GroupedLength(s[..|s| - 3]);
      GroupedIsByThrees(s[..|s| - 3]);
    }
  }
}
