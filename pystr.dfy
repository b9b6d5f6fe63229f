/** The few Python string operations the chat app relies on: `str.strip()`,
    `str.lower()` as far as the trivial-message gate can observe it, and the
    decimal formatting of `f"New Chat {i}"`. */
module PyStr {

  /** Python's `str.isspace()` for one character: the characters `str.strip()`
      with no argument removes (ASCII whitespace, the information separators
      U+001C..U+001F, NEL, NO-BREAK SPACE and the Unicode space separators). */
  predicate IsSpace(c: char) {
    || ('\t' <= c <= '\r')
    || ('\U{1C}' <= c <= '\U{1F}')
    || c == ' '
    || c == '\U{85}'
    || c == '\U{A0}'
    || c == '\U{1680}'
    || ('\U{2000}' <= c <= '\U{200A}')
    || c == '\U{2028}'
    || c == '\U{2029}'
    || c == '\U{202F}'
    || c == '\U{205F}'
    || c == '\U{3000}'
  }

  /** Blank, tab, newline and carriage return are whitespace; no ASCII letter
      or digit is. */
  lemma SpaceChars(c: char)
    ensures c == ' ' || c == '\t' || c == '\n' || c == '\r' ==> IsSpace(c)
    ensures IsSpace(c) ==> !('a' <= c <= 'z' || 'A' <= c <= 'Z' || '0' <= c <= '9')
  {
  }

  /** `s.lstrip()`: drops the leading whitespace, leaving a suffix of `s`
      that does not start with whitespace (see `StripLeftDropsSpaces`). */
  function StripLeft(s: string): (r: string)
    ensures |r| <= |s| && r == s[|s| - |r|..]
    ensures r != [] ==> !IsSpace(r[0])
  {
    if s != [] && IsSpace(s[0]) then StripLeft(s[1..]) else s
  }

  /** `s.rstrip()`: drops the trailing whitespace, leaving a prefix of `s`
      that does not end with whitespace (see `StripRightDropsSpaces`). */
  function StripRight(s: string): (r: string)
    ensures |r| <= |s| && r == s[..|r|]
    ensures r != [] ==> !IsSpace(r[|r| - 1])
  {
    if s != [] && IsSpace(s[|s| - 1]) then StripRight(s[..|s| - 1]) else s
  }

  /** `lstrip()` removes whitespace only. */
  lemma {:induction false} StripLeftDropsSpaces(s: string)
    ensures forall k :: 0 <= k < |s| - |StripLeft(s)| ==> IsSpace(s[k])
  {
    if s != [] && IsSpace(s[0]) {
      StripLeftDropsSpaces(s[1..]);
      forall k | 1 <= k < |s| - |StripLeft(s)|
        ensures IsSpace(s[k])
      {
        assert s[k] == s[1..][k - 1];
      }
    }
  }

  /** `rstrip()` removes whitespace only. */
  lemma {:induction false} StripRightDropsSpaces(s: string)
    ensures forall k :: |StripRight(s)| <= k < |s| ==> IsSpace(s[k])
  {
    if s != [] && IsSpace(s[|s| - 1]) {
      StripRightDropsSpaces(s[..|s| - 1]);
      forall k | |StripRight(s)| <= k < |s| - 1
        ensures IsSpace(s[k])
      {
        assert s[k] == s[..|s| - 1][k];
      }
    }
  }

  /** How many characters `lstrip()` removes from the front of `s`. */
  function LeadingSpaces(s: string): nat {
    |s| - |StripLeft(s)|
  }

  /** `s.strip()`: an infix of `s`, after its leading whitespace, that neither
      starts nor ends with whitespace (`StripDropsSpaces`: everything cut off
      on either side is whitespace). */
  function Strip(s: string): (r: string)
    ensures LeadingSpaces(s) + |r| <= |s| && r == s[LeadingSpaces(s)..LeadingSpaces(s) + |r|]
    ensures r != [] ==> !IsSpace(r[0]) && !IsSpace(r[|r| - 1])
  {
    var left := StripLeft(s);
    var r := StripRight(left);
    assert left[..|r|] == s[|s| - |left|..|s| - |left| + |r|];
    assert r != [] ==> r[0] == left[0];
    r
  }

  /** `strip()` removes whitespace only, on both sides. */
  lemma StripDropsSpaces(s: string)
    ensures forall k :: 0 <= k < LeadingSpaces(s) ==> IsSpace(s[k])
    ensures forall k :: LeadingSpaces(s) + |Strip(s)| <= k < |s| ==> IsSpace(s[k])
  {
    var left, lo := StripLeft(s), LeadingSpaces(s);
    assert forall k :: 0 <= k < lo ==> IsSpace(s[k]) by {
      StripLeftDropsSpaces(s);
    }
    assert forall k :: lo + |Strip(s)| <= k < |s| ==> IsSpace(s[k]) by {
      var r := StripRight(left);
      assert Strip(s) == r;
      StripRightDropsSpaces(left);
      forall k | lo + |r| <= k < |s|
        ensures IsSpace(s[k])
      {
        assert s[k] == left[k - lo];
      }
    }
  }

  /** Stripping twice is stripping once. */
  lemma {:induction false} StripIdempotent(s: string)
    ensures Strip(Strip(s)) == Strip(s)
  {
    var r := Strip(s);
    assert StripLeft(r) == r;
    assert StripRight(r) == r;
  }

  /** A string without surrounding whitespace is left alone by `strip()`. */
  lemma {:induction false} StripFixesTrimmed(s: string)
    requires s != [] ==> !IsSpace(s[0]) && !IsSpace(s[|s| - 1])
    ensures Strip(s) == s
  {
    assert StripLeft(s) == s;
    assert StripRight(s) == s;
  }

  /** `lstrip()` removes exactly a whitespace-only prefix in front of a string
      that does not start with whitespace. */
  lemma {:induction false} StripLeftPadding(pre: string, s: string)
    requires forall k :: 0 <= k < |pre| ==> IsSpace(pre[k])
    requires s != [] ==> !IsSpace(s[0])
    ensures StripLeft(pre + s) == s
    decreases |pre|
  {
    if pre == [] {
      assert pre + s == s;
    } else {
      assert (pre + s)[1..] == pre[1..] + s;
      StripLeftPadding(pre[1..], s);
    }
  }

  /** `rstrip()` removes exactly a whitespace-only suffix behind a string that
      does not end with whitespace. */
  lemma {:induction false} StripRightPadding(s: string, post: string)
    requires forall k :: 0 <= k < |post| ==> IsSpace(post[k])
    requires s != [] ==> !IsSpace(s[|s| - 1])
    ensures StripRight(s + post) == s
    decreases |post|
  {
    if post == [] {
      assert s + post == s;
    } else {
      var sp := s + post;
      assert sp[..|sp| - 1] == s + post[..|post| - 1];
      StripRightPadding(s, post[..|post| - 1]);
    }
  }

  /** `strip()` gives back a non-empty trimmed string from under any
      whitespace padding on either side. */
  lemma {:induction false} StripPadding(pre: string, w: string, post: string)
    requires forall k :: 0 <= k < |pre| ==> IsSpace(pre[k])
    requires forall k :: 0 <= k < |post| ==> IsSpace(post[k])
    requires w != [] && !IsSpace(w[0]) && !IsSpace(w[|w| - 1])
    ensures Strip(pre + w + post) == w
  {
    assert pre + w + post == pre + (w + post);
    StripLeftPadding(pre, w + post);
    StripRightPadding(w, post);
  }

  /** `c.lower()` restricted to the characters whose lowercase form is ASCII:
      'A'..'Z' and U+212A KELVIN SIGN (which lowers to 'k'). Every other
      character is kept: its Python lowercase form contains a non-ASCII
      character whenever the character itself is non-ASCII, so it can never
      turn a string into one of the ASCII trivial words, and this fold decides
      membership in an ASCII word set exactly as `str.lower()` does. */
  function LowerChar(c: char): (d: char)
    ensures 'A' <= c <= 'Z' ==> d as int == c as int + 32
    ensures c == 'K' ==> d == 'k'
    ensures !('A' <= c <= 'Z') && c != 'K' ==> d == c
  {
    if 'A' <= c <= 'Z' then (c as int + 32) as char
    else if c == 'K' then 'k'
    else c
  }

  /** `s.lower()` as seen by an ASCII word set (see `LowerChar`). */
  function Lower(s: string): (r: string)
    ensures |r| == |s|
  {
    if s == [] then [] else [LowerChar(s[0])] + Lower(s[1..])
  }

  /** `lower()` lowers each character in place. */
  lemma {:induction false} LowerAt(s: string)
    ensures forall k :: 0 <= k < |s| ==> Lower(s)[k] == LowerChar(s[k])
  {
    if s != [] {
      LowerAt(s[1..]);
      assert Lower(s) == [LowerChar(s[0])] + Lower(s[1..]);
    }
  }

  /** Lower-casing is idempotent. */
  lemma LowerIdempotent(s: string)
    ensures Lower(Lower(s)) == Lower(s)
  {
    assert forall k :: 0 <= k < |s| ==> LowerChar(LowerChar(s[k])) == LowerChar(s[k]);
  }

  /** One decimal digit character. */
  function Digit(d: nat): (c: char)
    requires d < 10
    ensures '0' <= c <= '9'
  {
    ('0' as int + d) as char
  }

  /** `str(n)` / `f"{n}"` for a non-negative integer: its decimal digits, most
      significant first, without leading zeros. */
  function NatToDecimal(n: nat): (s: string)
    ensures 1 <= |s|
    ensures n >= 10 ==> 2 <= |s|
    ensures forall k :: 0 <= k < |s| ==> '0' <= s[k] <= '9'
    decreases n
  {
    if n < 10 then [Digit(n)] else NatToDecimal(n / 10) + [Digit(n % 10)]
  }

  /** The number a string of decimal digits spells, most significant digit
      first; the reading that `int(s)` gives. */
  function DecimalValue(s: string): nat
    requires forall k :: 0 <= k < |s| ==> '0' <= s[k] <= '9'
  {
    if s == [] then 0
    else DecimalValue(s[..|s| - 1]) * 10 + (s[|s| - 1] as int - '0' as int)
  }

  /** `f"{n}"` spells `n`, and from 10 on it has no leading zero (from 1 on,
      in fact: only 0 itself is written with a leading '0'). */
  lemma {:induction false} NatToDecimalValue(n: nat)
    ensures DecimalValue(NatToDecimal(n)) == n
    ensures n >= 1 ==> NatToDecimal(n)[0] != '0'
    decreases n
  {
    var s := NatToDecimal(n);
    if n < 10 {
      assert s == [Digit(n)] && s[..0] == [];
    } else {
      var p := NatToDecimal(n / 10);
      NatToDecimalValue(n / 10);
      assert s == p + [Digit(n % 10)];
      assert s[..|s| - 1] == p;
      assert s[0] == p[0];
    }
  }

  /** Different numbers are written differently: both are read back by
      `DecimalValue`. */
  lemma {:induction false} NatToDecimalInjective(a: nat, b: nat)
    requires NatToDecimal(a) == NatToDecimal(b)
    ensures a == b
  {
    NatToDecimalValue(a);
    NatToDecimalValue(b);
  }

  /** The sidebar placeholder title `f"New Chat {i}"`. */
  function NewChatTitle(i: nat): (t: string)
    ensures |t| > 9 && t[..9] == "New Chat "
  {
    "New Chat " + NatToDecimal(i)
  }

  /** Placeholder titles for different numbers are different strings. */
  lemma {:induction false} NewChatTitleInjective(i: nat, j: nat)
    requires NewChatTitle(i) == NewChatTitle(j)
    ensures i == j
  {
    assert NatToDecimal(i) == NewChatTitle(i)[9..] == NewChatTitle(j)[9..] == NatToDecimal(j);
    NatToDecimalInjective(i, j);
  }
}
