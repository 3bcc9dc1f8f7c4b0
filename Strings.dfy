/// Text primitives with the meaning of the Python `str` operations the
/// programs rely on (`isspace`, `strip`, `lower`, `upper`, `isdigit`, `find`,
/// `in`, `replace`, `split`, `join`, `str(int)`), restricted to ASCII.
module Strings {

  /** Python's `str.isspace()` on one ASCII character: space, tab, line feed,
      vertical tab, form feed, carriage return and the four separators 0x1C-0x1F. */
  predicate IsSpace(c: char) {
    c == ' ' || ('\t' <= c <= '\r') || ('\U{1C}' <= c <= '\U{1F}')
  }

  /** True when every character of `s` is white space (so `s.strip() == ""`). */
  predicate AllSpace(s: string) {
    forall i :: 0 <= i < |s| ==> IsSpace(s[i])
  }

  /** `s.lstrip()`: drops the leading white space. */
  function LStrip(s: string): (r: string)
    ensures |r| <= |s|
  {
    if |s| > 0 && IsSpace(s[0]) then LStrip(s[1..]) else s
  }

  /** `lstrip` keeps a suffix that starts with a non-space, and what it drops
      is white space. */
  lemma {:induction false} LStripSpec(s: string)
    ensures LStrip(s) == s[|s| - |LStrip(s)|..]
    ensures LStrip(s) == [] || !IsSpace(LStrip(s)[0])
    ensures AllSpace(s[..|s| - |LStrip(s)|])
  {
    if |s| > 0 && IsSpace(s[0]) {
      LStripSpec(s[1..]);
      var d := s[..|s| - |LStrip(s)|];
      assert d == [s[0]] + s[1..][..|s[1..]| - |LStrip(s[1..])|];
    }
  }

  /** `lstrip` drops exactly a leading run of white space. */
  lemma {:induction false} LStripSpaces(w: string, q: string)
    requires AllSpace(w) && (q == [] || !IsSpace(q[0]))
    ensures LStrip(w + q) == q
  {
    if w != [] {
      assert (w + q)[0] == w[0];
      assert (w + q)[1..] == w[1..] + q;
      LStripSpaces(w[1..], q);
    } else {
      assert w + q == q;
    }
  }

  /** `s.rstrip()`: drops the trailing white space. */
  function RStrip(s: string): (r: string)
    ensures |r| <= |s|
  {
    if |s| > 0 && IsSpace(s[|s| - 1]) then RStrip(s[..|s| - 1]) else s
  }

  /** `rstrip` keeps a prefix that ends with a non-space, and what it drops is
      white space. */
  lemma {:induction false} RStripSpec(s: string)
    ensures RStrip(s) == s[..|RStrip(s)|]
    ensures RStrip(s) == [] || !IsSpace(RStrip(s)[|RStrip(s)| - 1])
    ensures AllSpace(s[|RStrip(s)|..])
  {
    if |s| > 0 && IsSpace(s[|s| - 1]) {
      RStripSpec(s[..|s| - 1]);
      var d := s[|RStrip(s)|..];
      assert d == s[..|s| - 1][|RStrip(s[..|s| - 1])|..] + [s[|s| - 1]];
    }
  }

  /** `s.strip()`. */
  function Strip(s: string): string {
    RStrip(LStrip(s))
  }

  /** A stripped string has no white space at either end. */
  lemma StripEnds(s: string)
    ensures var r := Strip(s); r == [] || (!IsSpace(r[0]) && !IsSpace(r[|r| - 1]))
  {
    var l := LStrip(s);
    var r := RStrip(l);
    LStripSpec(s);
    RStripSpec(l);
    if r != [] {
      assert r[0] == l[0];
    }
  }

  /** Stripping twice is stripping once. */
  lemma StripIdempotent(s: string)
    ensures Strip(Strip(s)) == Strip(s)
  {
    var r := Strip(s);
    StripEnds(s);
    LStripSpec(r);
    if r != [] {
      assert LStrip(r) == r;
      RStripSpec(r);
      assert RStrip(r) == r;
    }
  }

  /** Stripping never introduces a character that is not in the input. */
  lemma StripIsInfix(s: string)
    ensures exists i, j :: 0 <= i <= j <= |s| && Strip(s) == s[i..j]
  {
    var l := LStrip(s);
    var r := RStrip(l);
    var i := |s| - |l|;
    LStripSpec(s);
    RStripSpec(l);
    assert r == l[..|r|] == s[i..i + |r|];
  }

  /** Python's `str.lower()` on one ASCII character. */
  function LowerChar(c: char): char {
    if 'A' <= c <= 'Z' then (c as int + 32) as char else c
  }

  /** Python's `str.upper()` on one ASCII character. */
  function UpperChar(c: char): char {
    if 'a' <= c <= 'z' then (c as int - 32) as char else c
  }

  /** `s.lower()` over ASCII. */
  function Lower(s: string): string
  {
    seq(|s|, i requires 0 <= i < |s| => LowerChar(s[i]))
  }

  /** `s.upper()` over ASCII. */
  function Upper(s: string): string
  {
    seq(|s|, i requires 0 <= i < |s| => UpperChar(s[i]))
  }

  /** `t` occurs in `s` starting at index `i`. */
  predicate StartsAt(s: string, i: int, t: string) {
    0 <= i && i + |t| <= |s| && s[i..i + |t|] == t
  }

  /** Python's `t in s`. */
  predicate Contains(s: string, t: string) {
    exists i | 0 <= i <= |s| - |t| :: StartsAt(s, i, t)
  }

  /** An occurrence survives being surrounded by more text. */
  lemma ContainsInfix(a: string, b: string, c: string, t: string)
    requires Contains(b, t)
    ensures Contains(a + b + c, t)
  {
    var i :| 0 <= i <= |b| - |t| && StartsAt(b, i, t);
    assert (a + b + c)[|a| + i..|a| + i + |t|] == b[i..i + |t|];
    assert StartsAt(a + b + c, |a| + i, t);
  }

  /** A single character occurs in `s`. */
  predicate HasChar(s: string, c: char) {
    exists i :: 0 <= i < |s| && s[i] == c
  }

  /** The number of occurrences of `c` in `t` (Python's `t.count(c)`). */
  ghost function CharCount(t: string, c: char): nat
  {
    if t == [] then 0 else CharCount(t[..|t| - 1], c) + (if t[|t| - 1] == c then 1 else 0)
  }

  lemma {:induction false} CharCountConcat(a: string, b: string, c: char)
    ensures CharCount(a + b, c) == CharCount(a, c) + CharCount(b, c)
    decreases |b|
  {
    if b == [] {
      assert a + b == a;
    } else {
      CharCountConcat(a, b[..|b| - 1], c);
      assert (a + b)[..|a + b| - 1] == a + b[..|b| - 1];
    }
  }

  lemma {:induction false} CharCountNone(t: string, c: char)
    requires forall k :: 0 <= k < |t| ==> t[k] != c
    ensures CharCount(t, c) == 0
  {
    if t != [] {
      CharCountNone(t[..|t| - 1], c);
    }
  }

  /** A text that begins with `c` counts at least one `c`. */
  lemma FirstCharCounted(t: string, c: char)
    requires t != [] && t[0] == c
    ensures CharCount(t, c) >= 1
  {
    assert t == [t[0]] + t[1..];
    CharCountConcat([t[0]], t[1..], c);
    assert [t[0]][..0] == [];
  }

  /** A character that occurs is counted. */
  lemma {:induction false} HasCharCount(t: string, c: char)
    ensures HasChar(t, c) <==> CharCount(t, c) > 0
  {
    if t != [] {
      HasCharCount(t[..|t| - 1], c);
      if HasChar(t, c) && t[|t| - 1] != c {
        var i :| 0 <= i < |t| && t[i] == c;
        assert t[..|t| - 1][i] == c;
      }
      if HasChar(t[..|t| - 1], c) {
        var i :| 0 <= i < |t| - 1 && t[..|t| - 1][i] == c;
        assert t[i] == c;
      }
    }
  }

  /** A text without `c` has no `c` in any slice of it. */
  lemma SliceNoChar(t: string, i: nat, j: nat, c: char)
    requires i <= j <= |t| && !HasChar(t, c)
    ensures !HasChar(t[i..j], c)
  {
  }

  /** Stripping never adds a character. */
  lemma StripNoChar(s: string, c: char)
    requires !HasChar(s, c)
    ensures !HasChar(Strip(s), c)
  {
    StripIsInfix(s);
    var i, j :| 0 <= i <= j <= |s| && Strip(s) == s[i..j];
    SliceNoChar(s, i, j, c);
  }

  /** Python's `s.find(t, from)`: the lowest index at or after `from` where `t`
      occurs, or -1. */
  function Find(s: string, t: string, from: nat): (r: int)
    ensures r == -1 || (from <= r && StartsAt(s, r, t))
    ensures r >= 0 ==> forall i :: from <= i < r ==> !StartsAt(s, i, t)
    ensures r == -1 ==> forall i :: from <= i ==> !StartsAt(s, i, t)
    decreases |s| - from
  {
    if from + |t| > |s| then -1
    else if s[from..from + |t|] == t then from
    else Find(s, t, from + 1)
  }

  /** `t in s` is `s.find(t) != -1`. */
  lemma FindContains(s: string, t: string)
    ensures Contains(s, t) <==> Find(s, t, 0) >= 0
  {
    var r := Find(s, t, 0);
    if r >= 0 {
      assert StartsAt(s, r, t) && r <= |s| - |t|;
    }
  }

  /** A one-character pattern occurs exactly where its character does. */
  lemma ContainsChar(s: string, c: char)
    ensures Contains(s, [c]) <==> HasChar(s, c)
  {
    if HasChar(s, c) {
      var i :| 0 <= i < |s| && s[i] == c;
      assert StartsAt(s, i, [c]);
    }
    if Contains(s, [c]) {
      var i :| 0 <= i <= |s| - 1 && StartsAt(s, i, [c]);
      assert s[i..i + 1] == [c];
      assert s[i..i + 1][0] == s[i];
    }
  }

  /** Python's `s.replace(pat, by)`: every non-overlapping occurrence of `pat`,
      leftmost first, is replaced by `rep`. */
  function Replace(s: string, pat: string, rep: string): string
    requires |pat| > 0
    decreases |s|
  {
    var i := Find(s, pat, 0);
    if i < 0 then s else s[..i] + rep + Replace(s[i + |pat|..], pat, rep)
  }

  /** Replacing a pattern by text with fewer `c`s never adds a `c`, and
      removes at least one when the pattern occurs. */
  lemma {:induction false} ReplaceCharCount(s: string, pat: string, rep: string, c: char)
    requires |pat| > 0 && CharCount(rep, c) < CharCount(pat, c)
    ensures CharCount(Replace(s, pat, rep), c) <= CharCount(s, c)
    ensures Contains(s, pat) ==> CharCount(Replace(s, pat, rep), c) < CharCount(s, c)
    decreases |s|
  {
    FindContains(s, pat);
    var i := Find(s, pat, 0);
    if i >= 0 {
      var head, tail := s[..i], s[i + |pat|..];
      ReplaceCharCount(tail, pat, rep, c);
      ReplaceFirst(s, pat, rep, i);
      CharCount3(head, pat, tail, c);
      CharCount3(head, rep, Replace(tail, pat, rep), c);
    }
  }

  /** Unfolds `Replace` at the first occurrence `i` of the pattern. */
  lemma ReplaceFirst(s: string, pat: string, rep: string, i: int)
    requires |pat| > 0 && i == Find(s, pat, 0) && i >= 0
    ensures s == s[..i] + pat + s[i + |pat|..]
    ensures Replace(s, pat, rep) == s[..i] + rep + Replace(s[i + |pat|..], pat, rep)
  {
    SplitThree(s, i, i + |pat|);
  }

  /** A string is the concatenation of its three slices at `i` and `j`. */
  lemma SplitThree(s: string, i: nat, j: nat)
    requires i <= j <= |s|
    ensures s == s[..i] + s[i..j] + s[j..]
  {
    assert s[..i] + s[i..j] == s[..j];
    assert s[..j] + s[j..] == s;
  }

  lemma CharCount3(a: string, b: string, d: string, c: char)
    ensures CharCount(a + b + d, c) == CharCount(a, c) + CharCount(b, c) + CharCount(d, c)
  {
    CharCountConcat(a + b, d, c);
    CharCountConcat(a, b, c);
  }

  /** Replacing a pattern that does not occur changes nothing. */
  lemma ReplaceAbsent(s: string, pat: string, rep: string)
    requires |pat| > 0 && !Contains(s, pat)
    ensures Replace(s, pat, rep) == s
  {
  }

  /** Concatenation is associative; stated once so that loop proofs can cite it. */
  lemma AppendAssoc<T>(a: seq<T>, b: seq<T>, c: seq<T>)
    ensures (a + b) + c == a + (b + c)
  {
  }

  /** Replacing a pattern that occurs puts the replacement into the text. */
  lemma ReplaceInserts(s: string, pat: string, rep: string)
    requires |pat| > 0 && Contains(s, pat)
    ensures Contains(Replace(s, pat, rep), rep)
  {
    FindContains(s, pat);
    var i := Find(s, pat, 0);
    var r := Replace(s, pat, rep);
    assert r == s[..i] + rep + Replace(s[i + |pat|..], pat, rep);
    assert r[i..i + |rep|] == rep;
    assert StartsAt(r, i, rep);
  }

  /** Python's `s.split(sep)` for a non-empty separator: the pieces between
      the non-overlapping occurrences of `sep`, empty pieces included. */
  function Split(s: string, sep: string): (parts: seq<string>)
    requires |sep| > 0
    ensures |parts| >= 1
    decreases |s|
  {
    var i := Find(s, sep, 0);
    if i < 0 then [s] else [s[..i]] + Split(s[i + |sep|..], sep)
  }

  /** Python's `sep.join(parts)`. */
  function Join(parts: seq<string>, sep: string): string
  {
    if |parts| == 0 then ""
    else if |parts| == 1 then parts[0]
    else parts[0] + sep + Join(parts[1..], sep)
  }

  /** Joining pieces without `c` by a separator without `c` gives a text
      without `c`. */
  lemma {:induction false} JoinNoChar(parts: seq<string>, sep: string, c: char)
    requires forall k :: 0 <= k < |parts| ==> !HasChar(parts[k], c)
    requires !HasChar(sep, c)
    ensures !HasChar(Join(parts, sep), c)
    decreases |parts|
  {
    if |parts| > 1 {
      var tail := parts[1..];
      forall k | 0 <= k < |tail|
        ensures !HasChar(tail[k], c)
      {
        assert tail[k] == parts[k + 1];
      }
      JoinNoChar(tail, sep, c);
      HasCharCount(parts[0], c);
      HasCharCount(sep, c);
      HasCharCount(Join(tail, sep), c);
      CharCountConcat(parts[0] + sep, Join(tail, sep), c);
      CharCountConcat(parts[0], sep, c);
      HasCharCount(Join(parts, sep), c);
    }
  }

  /** Joining the pieces of a split with the same separator gives back the text. */
  lemma {:induction false} JoinSplit(s: string, sep: string)
    requires |sep| > 0
    ensures Join(Split(s, sep), sep) == s
    decreases |s|
  {
    var i := Find(s, sep, 0);
    if i >= 0 {
      var rest := s[i + |sep|..];
      var tail := Split(rest, sep);
      JoinSplit(rest, sep);
      assert Split(s, sep) == [s[..i]] + tail;
      assert ([s[..i]] + tail)[1..] == tail;
      assert Join([s[..i]] + tail, sep) == s[..i] + sep + Join(tail, sep);
      assert s == s[..i] + s[i..i + |sep|] + rest;
    }
  }

  /** `Find` returns `k` when `t` occurs at `k` and nowhere before it. */
  lemma FindIs(s: string, t: string, k: nat)
    requires StartsAt(s, k, t)
    requires forall i :: 0 <= i < k ==> !StartsAt(s, i, t)
    ensures Find(s, t, 0) == k
  {
  }

  /** One differing character rules an occurrence out. */
  lemma NotStartsAt(s: string, i: int, t: string, j: nat)
    requires 0 <= i && j < |t| && (i + j >= |s| || s[i + j] != t[j])
    ensures !StartsAt(s, i, t)
  {
    if i + |t| <= |s| {
      assert s[i..i + |t|][j] == s[i + j];
    }
  }

  /** An occurrence inside the slice `s[i..j]` is an occurrence in `s`. */
  lemma StartsAtSlice(s: string, i: nat, j: nat, p: nat, t: string)
    requires i <= j <= |s| && p + |t| <= j - i
    ensures StartsAt(s[i..j], p, t) <==> StartsAt(s, i + p, t)
  {
    var x, y := s[i..j][p..p + |t|], s[i + p..i + p + |t|];
    assert |x| == |y|;
    forall q | 0 <= q < |x| ensures x[q] == y[q] {
      assert x[q] == s[i..j][p + q] == s[i + p + q];
    }
    assert x == y;
  }

  /** A prefix of `s` before which `t` never starts does not contain `t`. */
  lemma NoStartsPrefix(s: string, k: nat, t: string)
    requires |t| > 0 && k <= |s| && forall i :: 0 <= i < k ==> !StartsAt(s, i, t)
    ensures !Contains(s[..k], t)
  {
    forall p | 0 <= p <= k - |t| ensures !StartsAt(s[..k], p, t) {
      assert s[0..k] == s[..k];
      StartsAtSlice(s, 0, k, p, t);
    }
  }

  /** Splitting a join on a one-character separator gives back the pieces when
      no piece contains that character. */
  lemma {:induction false} SplitJoin(parts: seq<string>, sep: string)
    requires |sep| == 1 && |parts| >= 1
    requires forall k :: 0 <= k < |parts| ==> !HasChar(parts[k], sep[0])
    ensures Split(Join(parts, sep), sep) == parts
  {
    var p := parts[0];
    if |parts| == 1 {
      NoCharNoFind(p, sep);
    } else {
      var rest := Join(parts[1..], sep);
      var s := p + sep + rest;
      assert Join(parts, sep) == s;
      forall i | 0 <= i < |p| ensures !StartsAt(s, i, sep) {
        assert s[i..i + 1][0] == s[i] == p[i];
      }
      assert s[|p|..|p| + 1] == sep;
      FindIs(s, sep, |p|);
      assert s[..|p|] == p;
      assert s[|p| + 1..] == rest;
      SplitJoin(parts[1..], sep);
      assert Split(s, sep) == [p] + Split(rest, sep);
      assert parts == [p] + parts[1..];
    }
  }

  /** A one-character pattern whose character is absent is not found. */
  lemma NoCharNoFind(s: string, sep: string)
    requires |sep| == 1 && !HasChar(s, sep[0])
    ensures Find(s, sep, 0) == -1
  {
    forall i | 0 <= i < |s| ensures !StartsAt(s, i, sep) {
      assert s[i..i + 1][0] == s[i];
    }
  }

  /** With a separator of two or more characters the round trip can fail even
      though neither piece contains the separator. */
  lemma SplitJoinNeedsOneChar()
    ensures !Contains("xa", "aa") && !Contains("y", "aa")
    ensures Split(Join(["xa", "y"], "aa"), "aa") == ["x", "ay"]
  {
    assert Join(["xa", "y"], "aa") == "xaaay";
    assert "xaaay"[0..2] == "xa" && "xaaay"[1..3] == "aa";
    assert Find("xaaay", "aa", 0) == 1;
    assert "xaaay"[..1] == "x" && "xaaay"[3..] == "ay";
    assert "ay"[0..2] != "aa";
    assert Find("ay", "aa", 0) == -1;
    assert "xa"[0..2] == "xa";
  }

  /** Python's `str.isdigit()` on one ASCII character. */
  predicate IsDigit(c: char) {
    '0' <= c <= '9'
  }

  /** Python's `s.isdigit()` over ASCII: non-empty and all digits. */
  predicate IsDigits(s: string) {
    |s| > 0 && forall i :: 0 <= i < |s| ==> IsDigit(s[i])
  }

  /** The value of a (possibly empty) run of decimal digits: `int(s)`. */
  function DigitsValue(s: string): nat
    requires forall i :: 0 <= i < |s| ==> IsDigit(s[i])
  {
    if |s| == 0 then 0
    else
      var d := s[|s| - 1] as int - '0' as int;
      assert IsDigit(s[|s| - 1]);
      DigitsValue(s[..|s| - 1]) * 10 + d
  }

  /** The digit character of `d`. */
  function DigitChar(d: nat): char
    requires d < 10
  {
    ('0' as int + d) as char
  }

  /** Python's `str(n)` for a natural number. */
  function NatToString(n: nat): (r: string)
    ensures IsDigits(r)
    ensures |r| >= 1 && (|r| > 1 ==> r[0] != '0')
  {
    if n < 10 then [DigitChar(n)] else NatToString(n / 10) + [DigitChar(n % 10)]
  }

  /** Reading back the decimal text of `n` gives `n`. */
  lemma {:induction false} NatToStringValue(n: nat)
    ensures DigitsValue(NatToString(n)) == n
  {
    if n >= 10 {
      NatToStringValue(n / 10);
      var s := NatToString(n);
      assert s[..|s| - 1] == NatToString(n / 10);
    }
  }

  /** Python's `str(i)` for any integer: digits without a leading zero, with
      a minus sign in front exactly when `i` is negative. */
  function IntToString(i: int): (r: string)
    ensures |r| >= 1
    ensures IsDigits(r) <==> i >= 0
    ensures i < 0 ==> r[0] == '-' && IsDigits(r[1..])
    ensures |r| > 1 && IsDigits(r) ==> r[0] != '0'
  {
    if i < 0 then
      var r := "-" + NatToString(-i);
      assert r[0] == '-' && r[1..] == NatToString(-i);
      r
    else NatToString(i)
  }

  /** The decimal text of an integer has no '.' in it. */
  lemma IntToStringNoDot(i: int)
    ensures !HasChar(IntToString(i), '.')
  {
    var r := IntToString(i);
    var d := NatToString(if i < 0 then -i else i);
    forall k | 0 <= k < |r| ensures r[k] != '.' {
      if i < 0 && k == 0 {
      } else {
        var k' := if i < 0 then k - 1 else k;
        assert r[k] == d[k'];
      }
    }
  }
}
