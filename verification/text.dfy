/** The Python string primitives the heading heuristics rely on, stated over
    `string` (a `seq<char>`): whitespace splitting, lower-casing,
    stripping, substring search, removal of one character, the first
    SPACE-delimited field and the `isdigit` test. */
module Text {

  /** Python's `str.isspace` for one character: TAB..CR, the separators
      0x1C..0x1F, SPACE, NEL, NO-BREAK SPACE and the Unicode space characters. */
  predicate IsSpace(c: char) {
    var n := c as int;
    || n == 0x20
    || 0x09 <= n <= 0x0D
    || 0x1C <= n <= 0x1F
    || n == 0x85
    || n == 0xA0
    || n == 0x1680
    || 0x2000 <= n <= 0x200A
    || n == 0x2028
    || n == 0x2029
    || n == 0x202F
    || n == 0x205F
    || n == 0x3000
  }

  predicate NoSpace(w: string) {
    forall i :: 0 <= i < |w| ==> !IsSpace(w[i])
  }

  /** Length of the run of non-whitespace characters that starts `s`. */
  function TokenLength(s: string): (n: nat)
    ensures n <= |s|
    ensures NoSpace(s[..n])
    ensures n == |s| || IsSpace(s[n])
  {
    if |s| == 0 || IsSpace(s[0]) then 0
    else
      var m := TokenLength(s[1..]);
      assert s[..m + 1] == [s[0]] + s[1..][..m];
      m + 1
  }

  /** The non-whitespace characters of `s`, in order. */
  function Visible(s: string): string {
    if |s| == 0 then [] else (if IsSpace(s[0]) then [] else [s[0]]) + Visible(s[1..])
  }

  function Concat(ws: seq<string>): string {
    if |ws| == 0 then [] else ws[0] + Concat(ws[1..])
  }

  lemma {:induction false} VisibleAppend(a: string, b: string)
    ensures Visible(a + b) == Visible(a) + Visible(b)
    decreases |a|
  {
    if |a| > 0 {
      assert (a + b)[1..] == a[1..] + b;
      VisibleAppend(a[1..], b);
    } else {
      assert a + b == b;
    }
  }

  lemma {:induction false} VisibleOfToken(w: string)
    requires NoSpace(w)
    ensures Visible(w) == w
    decreases |w|
  {
    if |w| > 0 {
      VisibleOfToken(w[1..]);
      assert w == [w[0]] + w[1..];
    }
  }

  /** Python's `str.split()` without a separator. */
  function Split(s: string): seq<string>
    decreases |s|
  {
    if |s| == 0 then []
    else if IsSpace(s[0]) then Split(s[1..])
    else
      var n := TokenLength(s);
      [s[..n]] + Split(s[n..])
  }

  /** `Split` cuts `s` into non-empty whitespace-free words that, joined,
      give back every non-whitespace character of `s` in order. */
  lemma {:induction false} SplitTokens(s: string)
    ensures forall k :: 0 <= k < |Split(s)| ==> |Split(s)[k]| > 0 && NoSpace(Split(s)[k])
    ensures Concat(Split(s)) == Visible(s)
    decreases |s|
  {
    if |s| > 0 {
      if IsSpace(s[0]) {
        SplitTokens(s[1..]);
      } else {
        var n := TokenLength(s);
        SplitTokens(s[n..]);
        assert s == s[..n] + s[n..];
        VisibleAppend(s[..n], s[n..]);
        VisibleOfToken(s[..n]);
        assert Split(s) == [s[..n]] + Split(s[n..]);
        assert Split(s)[1..] == Split(s[n..]);
      }
    }
  }

  /** Independent count of the words of `s`: the positions holding a
      non-whitespace character that is first in `s` (when `afterSpace`) or
      follows a whitespace character. */
  function WordStarts(s: string, afterSpace: bool): nat {
    if |s| == 0 then 0
    else (if afterSpace && !IsSpace(s[0]) then 1 else 0) + WordStarts(s[1..], IsSpace(s[0]))
  }

  lemma {:induction false} WordStartsInsideToken(s: string, m: nat)
    requires m <= |s| && NoSpace(s[..m])
    ensures WordStarts(s, false) == WordStarts(s[m..], false)
    decreases m
  {
    if m > 0 {
      assert !IsSpace(s[..m][0]);
      assert s[1..][..m - 1] == s[..m][1..];
      WordStartsInsideToken(s[1..], m - 1);
      assert s[1..][m - 1..] == s[m..];
    }
  }

  /** `len(s.split())` counts exactly the word starts of `s`. */
  lemma {:induction false} SplitCountsWords(s: string)
    ensures |Split(s)| == WordStarts(s, true)
    decreases |s|
  {
    if |s| > 0 {
      if IsSpace(s[0]) {
        SplitCountsWords(s[1..]);
      } else {
        var n := TokenLength(s);
        SplitCountsWords(s[n..]);
        assert s[1..][..n - 1] == s[..n][1..];
        WordStartsInsideToken(s[1..], n - 1);
        assert s[1..][n - 1..] == s[n..];
        if n < |s| {
          assert IsSpace(s[n..][0]);
        }
      }
    }
  }

  /** A whitespace-free non-empty text holds one word start. */
  lemma WordStartsOfWord(w: string)
    requires |w| > 0 && NoSpace(w)
    ensures WordStarts(w, true) == 1
  {
    assert w[1..][..|w| - 1] == w[1..];
    WordStartsInsideToken(w[1..], |w| - 1);
    assert w[1..][|w| - 1..] == [];
  }

  /** Words counted across a single SPACE separator add up. */
  lemma {:induction false} WordStartsAcrossSpace(a: string, b: string, afterSpace: bool)
    ensures WordStarts(a + [' '] + b, afterSpace) == WordStarts(a, afterSpace) + WordStarts(b, true)
    decreases |a|
  {
    if |a| == 0 {
      assert a + [' '] + b == [' '] + b;
      assert ([' '] + b)[1..] == b;
    } else {
      assert (a + [' '] + b)[1..] == a[1..] + [' '] + b;
      WordStartsAcrossSpace(a[1..], b, IsSpace(a[0]));
    }
  }

  /** The lower-case mapping of one character, for the characters whose
      Python lower case is ASCII: the letters A-Z and the KELVIN SIGN U+212A,
      which lower-cases to 'k'. Every other character is kept. */
  function LowerChar(c: char): char {
    if 'A' <= c <= 'Z' then (c as int + 32) as char
    else if c as int == 0x212A then 'k'
    else c
  }

  predicate IsAscii(c: char) {
    c as int < 0x80
  }

  predicate IsAsciiUpper(c: char) {
    'A' <= c <= 'Z'
  }

  /** `str.lower()` as far as it can produce ASCII characters: no ASCII
      capital is left, only ASCII capitals and the KELVIN SIGN change, each
      to an ASCII lower-case letter, and a character ends up ASCII exactly
      when it was ASCII or the KELVIN SIGN. */
  function Lower(s: string): (r: string)
    ensures |r| == |s|
    ensures forall i :: 0 <= i < |s| ==> r[i] == LowerChar(s[i])
    ensures forall i :: 0 <= i < |r| ==> !IsAsciiUpper(r[i])
    ensures forall i :: 0 <= i < |s| && r[i] != s[i] ==>
      (IsAsciiUpper(s[i]) || s[i] as int == 0x212A) && 'a' <= r[i] <= 'z'
    ensures forall i :: 0 <= i < |s| ==> (IsAscii(r[i]) <==> IsAscii(s[i]) || s[i] as int == 0x212A)
  {
    seq(|s|, i requires 0 <= i < |s| => LowerChar(s[i]))
  }

  /** Lower-casing twice is lower-casing once. */
  lemma LowerIdempotent(s: string)
    ensures Lower(Lower(s)) == Lower(s)
  {
    var r := Lower(s);
    assert forall i :: 0 <= i < |r| ==> LowerChar(r[i]) == r[i];
  }

  function StripLeft(s: string): string {
    if |s| > 0 && IsSpace(s[0]) then StripLeft(s[1..]) else s
  }

  /** `StripLeft` drops exactly the leading whitespace. */
  lemma {:induction false} StripLeftSpec(s: string)
    ensures var r := StripLeft(s);
      && |r| <= |s| && r == s[|s| - |r|..]
      && (forall i :: 0 <= i < |s| - |r| ==> IsSpace(s[i]))
      && (|r| == 0 || !IsSpace(r[0]))
    decreases |s|
  {
    if |s| > 0 && IsSpace(s[0]) {
      StripLeftSpec(s[1..]);
    }
  }

  function StripRight(s: string): string {
    if |s| > 0 && IsSpace(s[|s| - 1]) then StripRight(s[..|s| - 1]) else s
  }

  /** `StripRight` drops exactly the trailing whitespace. */
  lemma {:induction false} StripRightSpec(s: string)
    ensures var r := StripRight(s);
      && |r| <= |s| && r == s[..|r|]
      && (forall i :: |r| <= i < |s| ==> IsSpace(s[i]))
      && (|r| == 0 || !IsSpace(r[|r| - 1]))
    decreases |s|
  {
    if |s| > 0 && IsSpace(s[|s| - 1]) {
      StripRightSpec(s[..|s| - 1]);
    }
  }

  /** `r` is `s[a..]` cut to length `|r|`, and everything of `s` around it is whitespace. */
  predicate StrippedAt(s: string, r: string, a: int) {
    && 0 <= a && a + |r| <= |s|
    && r == s[a..a + |r|]
    && (forall i :: 0 <= i < a ==> IsSpace(s[i]))
    && (forall i :: a + |r| <= i < |s| ==> IsSpace(s[i]))
  }

  /** Python's `str.strip()`. */
  function Strip(s: string): string {
    StripRight(StripLeft(s))
  }

  /** `Strip` removes the leading and trailing whitespace of `s` and nothing else. */
  lemma StripSpec(s: string)
    ensures exists a :: StrippedAt(s, Strip(s), a)
    ensures var r := Strip(s); |r| == 0 || (!IsSpace(r[0]) && !IsSpace(r[|r| - 1]))
  {
    var left := StripLeft(s);
    var r := StripRight(left);
    StripLeftSpec(s);
    StripRightSpec(left);
    var a := |s| - |left|;
    assert r == s[a..a + |r|];
    assert StrippedAt(s, r, a) && Strip(s) == r;
  }

  /** `sub` occurs in `s` starting at index `i`. */
  predicate OccursAt(s: string, sub: string, i: int) {
    0 <= i && i + |sub| <= |s| && s[i..i + |sub|] == sub
  }

  function ContainsFrom(s: string, sub: string, i: nat): bool
    decreases |s| - i
  {
    if i + |sub| > |s| then false
    else OccursAt(s, sub, i) || ContainsFrom(s, sub, i + 1)
  }

  /** Python's `sub in s` for strings. */
  function Contains(s: string, sub: string): bool {
    ContainsFrom(s, sub, 0)
  }

  lemma {:induction false} ContainsFromSpec(s: string, sub: string, i: nat)
    ensures ContainsFrom(s, sub, i) <==> exists k :: i <= k && OccursAt(s, sub, k)
    decreases |s| - i
  {
    if i + |sub| <= |s| {
      ContainsFromSpec(s, sub, i + 1);
      forall k | i <= k && OccursAt(s, sub, k) ensures k == i || i + 1 <= k {
      }
    }
  }

  /** `Contains` finds `sub` exactly when it occurs somewhere in `s`. */
  lemma ContainsSpec(s: string, sub: string)
    ensures Contains(s, sub) <==> exists k :: OccursAt(s, sub, k)
  {
    ContainsFromSpec(s, sub, 0);
  }

  /** `s.replace(c, '')`. */
  function RemoveChar(s: string, c: char): string {
    if |s| == 0 then []
    else (if s[0] == c then [] else [s[0]]) + RemoveChar(s[1..], c)
  }

  /** `RemoveChar` deletes every `c` and keeps every other character as often as before. */
  lemma {:induction false} RemoveCharSpec(s: string, c: char)
    ensures c !in RemoveChar(s, c)
    ensures forall x :: x != c ==> multiset(RemoveChar(s, c))[x] == multiset(s)[x]
    decreases |s|
  {
    if |s| > 0 {
      RemoveCharSpec(s[1..], c);
      assert s == [s[0]] + s[1..];
    }
  }

  /** Removing a character from a concatenation removes it from each part:
      the kept characters stay in their order. */
  lemma {:induction false} RemoveCharConcat(a: string, b: string, c: char)
    ensures RemoveChar(a + b, c) == RemoveChar(a, c) + RemoveChar(b, c)
    decreases |a|
  {
    if |a| > 0 {
      RemoveCharConcat(a[1..], b, c);
      assert (a + b)[1..] == a[1..] + b;
    } else {
      assert a + b == b;
    }
  }

  /** `s.split(' ')[0]`: the prefix of `s` before its first SPACE character. */
  function FirstField(s: string): string {
    if |s| == 0 || s[0] == ' ' then []
    else [s[0]] + FirstField(s[1..])
  }

  /** `FirstField` is the longest SPACE-free prefix. */
  lemma {:induction false} FirstFieldSpec(s: string)
    ensures var r := FirstField(s); r <= s && ' ' !in r && (|r| == |s| || s[|r|] == ' ')
    decreases |s|
  {
    if |s| > 0 && s[0] != ' ' {
      FirstFieldSpec(s[1..]);
    }
  }

  /** Python's `str.isdigit` for one character (Unicode 15.0): the decimal
      digits of every script, the superscript and subscript digits, and the
      circled, parenthesised and full-stop digits and their kin. */
  predicate IsDigit(c: char) {
    var n := c as int;
    || 0x30 <= n <= 0x39
    || 0xB2 <= n <= 0xB3
    || n == 0xB9
    || 0x660 <= n <= 0x669
    || 0x6F0 <= n <= 0x6F9
    || 0x7C0 <= n <= 0x7C9
    || 0x966 <= n <= 0x96F
    || 0x9E6 <= n <= 0x9EF
    || 0xA66 <= n <= 0xA6F
    || 0xAE6 <= n <= 0xAEF
    || 0xB66 <= n <= 0xB6F
    || 0xBE6 <= n <= 0xBEF
    || 0xC66 <= n <= 0xC6F
    || 0xCE6 <= n <= 0xCEF
    || 0xD66 <= n <= 0xD6F
    || 0xDE6 <= n <= 0xDEF
    || 0xE50 <= n <= 0xE59
    || 0xED0 <= n <= 0xED9
    || 0xF20 <= n <= 0xF29
    || 0x1040 <= n <= 0x1049
    || 0x1090 <= n <= 0x1099
    || 0x1369 <= n <= 0x1371
    || 0x17E0 <= n <= 0x17E9
    || 0x1810 <= n <= 0x1819
    || 0x1946 <= n <= 0x194F
    || 0x19D0 <= n <= 0x19DA
    || 0x1A80 <= n <= 0x1A89
    || 0x1A90 <= n <= 0x1A99
    || 0x1B50 <= n <= 0x1B59
    || 0x1BB0 <= n <= 0x1BB9
    || 0x1C40 <= n <= 0x1C49
    || 0x1C50 <= n <= 0x1C59
    || n == 0x2070
    || 0x2074 <= n <= 0x2079
    || 0x2080 <= n <= 0x2089
    || 0x2460 <= n <= 0x2468
    || 0x2474 <= n <= 0x247C
    || 0x2488 <= n <= 0x2490
    || n == 0x24EA
    || 0x24F5 <= n <= 0x24FD
    || n == 0x24FF
    || 0x2776 <= n <= 0x277E
    || 0x2780 <= n <= 0x2788
    || 0x278A <= n <= 0x2792
    || 0xA620 <= n <= 0xA629
    || 0xA8D0 <= n <= 0xA8D9
    || 0xA900 <= n <= 0xA909
    || 0xA9D0 <= n <= 0xA9D9
    || 0xA9F0 <= n <= 0xA9F9
    || 0xAA50 <= n <= 0xAA59
    || 0xABF0 <= n <= 0xABF9
    || 0xFF10 <= n <= 0xFF19
    || 0x104A0 <= n <= 0x104A9
    || 0x10A40 <= n <= 0x10A43
    || 0x10D30 <= n <= 0x10D39
    || 0x10E60 <= n <= 0x10E68
    || 0x11052 <= n <= 0x1105A
    || 0x11066 <= n <= 0x1106F
    || 0x110F0 <= n <= 0x110F9
    || 0x11136 <= n <= 0x1113F
    || 0x111D0 <= n <= 0x111D9
    || 0x112F0 <= n <= 0x112F9
    || 0x11450 <= n <= 0x11459
    || 0x114D0 <= n <= 0x114D9
    || 0x11650 <= n <= 0x11659
    || 0x116C0 <= n <= 0x116C9
    || 0x11730 <= n <= 0x11739
    || 0x118E0 <= n <= 0x118E9
    || 0x11950 <= n <= 0x11959
    || 0x11C50 <= n <= 0x11C59
    || 0x11D50 <= n <= 0x11D59
    || 0x11DA0 <= n <= 0x11DA9
    || 0x11F50 <= n <= 0x11F59
    || 0x16A60 <= n <= 0x16A69
    || 0x16AC0 <= n <= 0x16AC9
    || 0x16B50 <= n <= 0x16B59
    || 0x1D7CE <= n <= 0x1D7FF
    || 0x1E140 <= n <= 0x1E149
    || 0x1E2F0 <= n <= 0x1E2F9
    || 0x1E4F0 <= n <= 0x1E4F9
    || 0x1E950 <= n <= 0x1E959
    || 0x1F100 <= n <= 0x1F10A
    || 0x1FBF0 <= n <= 0x1FBF9
  }

  /** `str.isdigit()`: non-empty and digits only. */
  predicate IsDigits(s: string) {
    |s| > 0 && forall i :: 0 <= i < |s| ==> IsDigit(s[i])
  }
}
