/// The `{{c1::answer}}` cloze markup of the exercise sheets and its
/// left-to-right reading: each complete span becomes the placeholder
/// `$Blankspace$` and yields its answer.
module Cloze {
  import opened Wrappers
  import opened Strings

  /** Opening token of a cloze span. */
  const Start: string := "{{c1::"
  /** Closing token of a cloze span. */
  const End: string := "}}"
  /** Placeholder left where a span was. */
  const Blank: string := "$Blankspace$"

  /** No occurrence of the opening token starts before index `k` of `s`. */
  ghost predicate NoStartBefore(s: string, k: int) {
    forall p :: 0 <= p < k ==> !StartsAt(s, p, Start)
  }

  /** The closing token found from the opening token lies after the whole
      opening token (the opening token holds no `}`). */
  lemma EndAfterStart(cell: string, s: nat)
    requires StartsAt(cell, s, Start)
    ensures Find(cell, End, s) == Find(cell, End, s + |Start|)
    ensures Find(cell, End, s) == -1 || Find(cell, End, s) >= s + |Start|
  {
    assert cell[s..s + 6] == Start;
    forall q | s <= q < s + 6 ensures !StartsAt(cell, q, End) {
      assert cell[q] == cell[s..s + 6][q - s];
      NotStartsAt(cell, q, End, 0);
    }
    FindSkip(cell, End, s, s + 6);
  }

  /** Searching from `a` or from `b` agrees when nothing occurs in between. */
  lemma {:induction false} FindSkip(s: string, t: string, a: nat, b: nat)
    requires a <= b
    requires forall q :: a <= q < b ==> !StartsAt(s, q, t)
    ensures Find(s, t, a) == Find(s, t, b)
    decreases b - a
  {
    if a < b && a + |t| <= |s| {
      FindSkip(s, t, a + 1, b);
    }
  }

  /** A search that starts inside the suffix `y` of `x + y` is a search in `y`. */
  lemma {:induction false} FindShift(x: string, y: string, t: string, from: nat)
    ensures Find(x + y, t, |x| + from) == (var f := Find(y, t, from); if f < 0 then -1 else |x| + f)
    decreases |y| - from
  {
    var s := x + y;
    if |x| + from + |t| <= |s| {
      assert s[|x| + from..|x| + from + |t|] == y[from..from + |t|];
      if y[from..from + |t|] != t {
        FindShift(x, y, t, from + 1);
      }
    }
  }

  /** Python's `cell.find(START)` skips a prefix where no opening token starts. */
  lemma FindPastPrefix(x: string, y: string)
    requires NoStartBefore(x + y, |x|)
    ensures Find(x + y, Start, 0) == (var f := Find(y, Start, 0); if f < 0 then -1 else |x| + f)
  {
    FindSkip(x + y, Start, 0, |x|);
    FindShift(x, y, Start, 0);
  }

  /** No opening token can straddle a `$`: the token holds no `$`. */
  lemma ConcatNoStart(a: string, b: string)
    requires !Contains(a, Start) && !Contains(b, Start)
    requires a == [] || a[|a| - 1] == '$' || b == [] || b[0] == '$'
    ensures !Contains(a + b, Start)
  {
    var s := a + b;
    forall p | 0 <= p <= |s| - 6 ensures !StartsAt(s, p, Start) {
      if p + 6 <= |a| {
        assert s[p..p + 6] == a[p..p + 6];
        assert !StartsAt(a, p, Start);
      } else if p >= |a| {
        assert s[p..p + 6] == b[p - |a|..p - |a| + 6];
        assert !StartsAt(b, p - |a|, Start);
      } else {
        var q := if a != [] && a[|a| - 1] == '$' then |a| - 1 else |a|;
        assert s[q] == '$';
        assert s[p..p + 6][q - p] == s[q];
      }
    }
  }

  /** The placeholder holds no opening token. */
  lemma BlankHasNoStart()
    ensures !Contains(Blank, Start)
  {
    forall p | 0 <= p <= |Blank| - |Start| ensures !StartsAt(Blank, p, Start) {
      assert Blank[p..p + 6][0] == Blank[p] != '{';
    }
  }

  /** The left-to-right reading of one cell: the text with every complete
      span replaced by `Blank`, and the answers in order. A span runs from the
      first opening token to the first closing token after it; an opening
      token with no closing token after it ends the reading there. */
  function Scan(cell: string): (string, seq<string>)
    decreases |cell|
  {
    match FirstSpan(cell)
    case None => (cell, [])
    case Some((s, e)) =>
      var rest := Scan(cell[e + |End|..]);
      (cell[..s] + Blank + rest.0, [cell[s + |Start|..e]] + rest.1)
  }

  /** Where the first complete span lies: the first opening token and the
      first closing token after it, if both exist. */
  function FirstSpan(cell: string): (r: Option<(nat, nat)>)
    ensures r.Some? ==> r.value.0 + |Start| <= r.value.1 && r.value.1 + |End| <= |cell|
  {
    var s := Find(cell, Start, 0);
    if s < 0 then None
    else
      var e := Find(cell, End, s);
      if e < 0 then None
      else
        EndAfterStart(cell, s);
        Some((s, e))
  }

  /** A string of already-read text: empty, or ending in the `$` of a
      placeholder, with no opening token inside it. */
  ghost predicate Settled(pre: string) {
    (pre == [] || pre[|pre| - 1] == '$') && !Contains(pre, Start)
  }

  /** No opening token starts inside a settled prefix, even one that runs
      on into what follows. */
  lemma SettledNoStart(pre: string, tail: string)
    requires Settled(pre)
    ensures NoStartBefore(pre + tail, |pre|)
  {
    var c := pre + tail;
    forall p | 0 <= p < |pre| ensures !StartsAt(c, p, Start) {
      if p + 6 <= |pre| {
        StartsAtSlice(c, 0, |pre|, p, Start);
        assert c[0..|pre|] == pre;
      } else {
        assert c[|pre| - 1] == '$';
        NotStartsAt(c, p, Start, |pre| - 1 - p);
      }
    }
  }

  /** One step of Python's rescanning loop on `pre + tail`: where it finds the
      span and what it leaves, stated in terms of the reading of `tail`. */
  lemma RescanStep(pre: string, tail: string)
    requires Settled(pre)
    ensures Contains(pre + tail, Start) <==> Contains(tail, Start)
    ensures Find(tail, Start, 0) < 0 <==> Find(pre + tail, Start, 0) < 0
    ensures Find(tail, Start, 0) >= 0 ==> Find(pre + tail, Start, 0) == |pre| + Find(tail, Start, 0)
    ensures Find(tail, Start, 0) >= 0 ==>
      (Find(tail, End, Find(tail, Start, 0)) < 0 <==>
       Find(pre + tail, End, |pre| + Find(tail, Start, 0)) < 0)
    ensures Find(tail, Start, 0) >= 0 && Find(tail, End, Find(tail, Start, 0)) >= 0 ==>
      Find(pre + tail, End, |pre| + Find(tail, Start, 0)) == |pre| + Find(tail, End, Find(tail, Start, 0))
  {
    var c := pre + tail;
    SettledNoStart(pre, tail);
    FindPastPrefix(pre, tail);
    FindContains(c, Start);
    FindContains(tail, Start);
    var s' := Find(tail, Start, 0);
    if s' >= 0 {
      FindShift(pre, tail, End, s');
    }
  }


  /** After a span is replaced, the text up to and including the placeholder
      is settled. */
  lemma SettledAfterSpan(pre: string, tail: string, s': nat)
    requires Settled(pre) && s' <= |tail|
    requires forall p :: 0 <= p < s' ==> !StartsAt(tail, p, Start)
    ensures Settled(pre + tail[..s'] + Blank)
  {
    var u := tail[..s'];
    NoStartsPrefix(tail, s', Start);
    ConcatNoStart(pre, u);
    BlankHasNoStart();
    ConcatNoStart(pre + u, Blank);
  }

  /** Unfolds `Scan` at a complete first span whose bounds are given. */
  lemma ScanUnfold(cell: string, s: int, e: int)
    requires s == Find(cell, Start, 0) && s >= 0 && e == Find(cell, End, s) && e >= 0
    ensures s + |Start| <= e && e + |End| <= |cell|
    ensures Scan(cell) == (cell[..s] + Blank + Scan(cell[e + |End|..]).0,
                           [cell[s + |Start|..e]] + Scan(cell[e + |End|..]).1)
  {
    assert FirstSpan(cell) == Some((s, e));
    var rest := Scan(cell[e + |End|..]);
    assert Scan(cell) == (cell[..s] + Blank + rest.0, [cell[s + |Start|..e]] + rest.1);
  }

  /** `ScanUnfold` with the pieces of the cell named. */
  lemma ScanAt(cell: string, s: int, e: int, before: string, answer: string, rest: string)
    requires s == Find(cell, Start, 0) && s >= 0 && e == Find(cell, End, s) && e >= 0
    requires s + |Start| <= e && e + |End| <= |cell|
    requires before == cell[..s] && answer == cell[s + |Start|..e] && rest == cell[e + |End|..]
    ensures Scan(cell) == (before + Blank + Scan(rest).0, [answer] + Scan(rest).1)
  {
    ScanUnfold(cell, s, e);
  }

  /** Unfolds `Scan` at a complete first span. */
  lemma ScanSpan(cell: string) returns (s: nat, e: nat)
    requires Find(cell, Start, 0) >= 0 && Find(cell, End, Find(cell, Start, 0)) >= 0
    ensures s == Find(cell, Start, 0) && e == Find(cell, End, s)
    ensures StartsAt(cell, s, Start) && StartsAt(cell, e, End) && s + |Start| <= e
    ensures forall q :: s <= q < e ==> !StartsAt(cell, q, End)
    ensures Scan(cell) == (cell[..s] + Blank + Scan(cell[e + |End|..]).0,
                           [cell[s + |Start|..e]] + Scan(cell[e + |End|..]).1)
  {
    s := Find(cell, Start, 0);
    e := Find(cell, End, s);
    ScanUnfold(cell, s, e);
  }

  /** Slices of `pre + tail` at positions shifted by `|pre|`. */
  lemma ShiftedSlices(pre: string, tail: string, s': nat, e': nat, s: int, e: int)
    requires s' + |Start| <= e' && e' + |End| <= |tail|
    requires s == |pre| + s' && e == |pre| + e'
    ensures (pre + tail)[..s] == pre + tail[..s']
    ensures (pre + tail)[e + |End|..] == tail[e' + |End|..]
    ensures (pre + tail)[s + |Start|..e] == tail[s' + |Start|..e']
  {
  }

  lemma ConcatAssoc(a: string, b: string, c: string, d: string)
    ensures (a + b) + c + d == a + (b + c + d)
  {
  }

  /** Reading a cell behind a settled prefix leaves the prefix as it is. */
  lemma ScanSettledPrefix(pre: string, tail: string)
    requires Settled(pre)
    ensures Scan(pre + tail) == (pre + Scan(tail).0, Scan(tail).1)
  {
    RescanStep(pre, tail);
    if Find(tail, Start, 0) >= 0 && Find(tail, End, Find(tail, Start, 0)) >= 0 {
      ScanShiftedSpan(pre, tail, Find(tail, Start, 0), Find(tail, End, Find(tail, Start, 0)));
    } else {
      ScanUnchanged(tail);
      ScanUnchanged(pre + tail);
    }
  }

  /** The span case of `ScanSettledPrefix`, given where the spans lie. */
  lemma ScanShiftedSpan(pre: string, tail: string, s': int, e': int)
    requires s' == Find(tail, Start, 0) && s' >= 0 && e' == Find(tail, End, s') && e' >= 0
    requires Find(pre + tail, Start, 0) == |pre| + s'
    requires Find(pre + tail, End, |pre| + s') == |pre| + e'
    ensures Scan(pre + tail) == (pre + Scan(tail).0, Scan(tail).1)
  {
    assert s' + |Start| <= e' && e' + |End| <= |tail| by {
      EndAfterStart(tail, s');
    }
    var rest := tail[e' + |End|..];
    var u, a := tail[..s'], tail[s' + |Start|..e'];
    var c, s, e := pre + tail, |pre| + s', |pre| + e';
    ShiftedSlices(pre, tail, s', e', s, e);
    ScanAt(tail, s', e', u, a, rest);
    ScanAt(c, s, e, pre + u, a, rest);
    var r := Scan(rest);
    ConcatAssoc(pre, u, Blank, r.0);
  }

  /** Replacing the first complete span by the placeholder and reading the
      result again gives the same text and the remaining answers. */
  lemma ScanAfterRewrite(c: string, s: int, e: int)
    requires s == Find(c, Start, 0) && s >= 0 && e == Find(c, End, s) && e >= 0
    ensures s + |Start| <= e && e + |End| <= |c| && c[s] == '{'
    ensures Scan(c[..s] + Blank + c[e + |End|..]).0 == Scan(c).0
    ensures Scan(c).1 == [c[s + |Start|..e]] + Scan(c[..s] + Blank + c[e + |End|..]).1
  {
    SettledBeforeSpan(c, s);
    ScanUnfold(c, s, e);
    ScanSettledPrefix(c[..s] + Blank, c[e + |End|..]);
  }

  /** The text before the first opening token, followed by the placeholder,
      is settled; the token begins with a brace. */
  lemma SettledBeforeSpan(c: string, s: int)
    requires s == Find(c, Start, 0) && s >= 0
    ensures s < |c| && c[s] == '{'
    ensures Settled(c[..s] + Blank)
  {
    assert c[s..s + 6][0] == c[s];
    NoStartsPrefix(c, s, Start);
    BlankHasNoStart();
    ConcatNoStart(c[..s], Blank);
  }

  /** With no `$` in the cell, putting each answer back between the tokens in
      place of its placeholder restores the cell. */
  function Refill(r: string, answers: seq<string>): string
    decreases |r|
  {
    var b := Find(r, Blank, 0);
    if b < 0 || |answers| == 0 then r
    else r[..b] + Start + answers[0] + End + Refill(r[b + |Blank|..], answers[1..])
  }

  /** Refilling text that begins with a `$`-free part and a placeholder. */
  lemma RefillStep(u: string, r: string, a: string, rest: seq<string>)
    requires !HasChar(u, '$')
    ensures Refill(u + Blank + r, [a] + rest) == u + Start + a + End + Refill(r, rest)
  {
    var t := u + Blank + r;
    forall p | 0 <= p < |u| ensures !StartsAt(t, p, Blank) {
      assert t[p] == u[p];
      NotStartsAt(t, p, Blank, 0);
    }
    assert t[|u|..|u| + 12] == Blank;
    FindIs(t, Blank, |u|);
    assert t[..|u|] == u && t[|u| + 12..] == r;
    assert ([a] + rest)[1..] == rest;
  }

  /** A cell around a complete span is text, tokens and answer in order. */
  lemma SpanParts(cell: string, s: nat, e: nat)
    requires StartsAt(cell, s, Start) && StartsAt(cell, e, End) && s + |Start| <= e
    ensures cell == cell[..s] + Start + cell[s + |Start|..e] + End + cell[e + |End|..]
  {
    assert cell == cell[..s] + cell[s..s + 6] + cell[s + 6..e] + cell[e..e + 2] + cell[e + 2..];
  }

  /** Round trip of the reading: for a cell without `$`, refilling the
      placeholders with the answers gives back the cell. */
  lemma {:induction false} ScanRefill(cell: string)
    requires !HasChar(cell, '$')
    ensures Refill(Scan(cell).0, Scan(cell).1) == cell
    decreases |cell|
  {
    if Find(cell, Start, 0) < 0 || Find(cell, End, Find(cell, Start, 0)) < 0 {
      assert Scan(cell) == (cell, []);
    } else {
      var s, e := ScanSpan(cell);
      var tail := cell[e + 2..];
      SliceNoChar(cell, e + 2, |cell|, '$');
      SliceNoChar(cell, 0, s, '$');
      assert cell[e + 2..|cell|] == tail && cell[0..s] == cell[..s];
      ScanRefill(tail);
      RefillStep(cell[..s], Scan(tail).0, cell[s + 6..e], Scan(tail).1);
      SpanParts(cell, s, e);
    }
  }

  /** Every opening token in `cell` has a closing token somewhere after it. */
  ghost predicate WellFormed(cell: string) {
    forall p :: StartsAt(cell, p, Start) ==> Find(cell, End, p) >= 0
  }

  /** What follows a closing token of a well-formed cell is well-formed. */
  lemma WellFormedSuffix(cell: string, k: nat)
    requires WellFormed(cell) && k <= |cell|
    ensures WellFormed(cell[k..])
  {
    var tail := cell[k..];
    assert cell == cell[..k] + tail;
    forall p | StartsAt(tail, p, Start) ensures Find(tail, End, p) >= 0 {
      assert cell[k..|cell|] == tail;
      StartsAtSlice(cell, k, |cell|, p, Start);
      FindShift(cell[..k], tail, End, p);
    }
  }

  /** If the reading after the first span leaves no opening token, neither
      does the reading of the whole cell. */
  lemma ClearsPastSpan(cell: string, s: int, e: int)
    requires s == Find(cell, Start, 0) && s >= 0 && e == Find(cell, End, s) && e >= 0
    requires e + |End| <= |cell| && !Contains(Scan(cell[e + |End|..]).0, Start)
    ensures !Contains(Scan(cell).0, Start)
  {
    ScanUnfold(cell, s, e);
    SettledBeforeSpan(cell, s);
    ConcatNoStart(cell[..s] + Blank, Scan(cell[e + |End|..]).0);
  }

  /** On a well-formed cell the reading leaves no opening token behind. */
  lemma {:induction false} ScanClearsWellFormed(cell: string)
    requires WellFormed(cell)
    ensures !Contains(Scan(cell).0, Start)
    decreases |cell|
  {
    FindContains(cell, Start);
    var s := Find(cell, Start, 0);
    if s < 0 {
      ScanUnchanged(cell);
    } else {
      var e := Find(cell, End, s);
      assert e >= s + |Start| && e + |End| <= |cell| by {
        EndAfterStart(cell, s);
      }
      assert WellFormed(cell[e + 2..]) by {
        WellFormedSuffix(cell, e + 2);
      }
      ScanClearsWellFormed(cell[e + 2..]);
      ClearsPastSpan(cell, s, e);
    }
  }

  /** Each answer is the text strictly inside its span, so it holds no
      closing token; there is one answer per complete span. */
  lemma {:induction false} ScanAnswersHaveNoEnd(cell: string)
    ensures forall k :: 0 <= k < |Scan(cell).1| ==> !Contains(Scan(cell).1[k], End)
    decreases |cell|
  {
    var s := Find(cell, Start, 0);
    if s >= 0 && Find(cell, End, s) >= 0 {
      var e := Find(cell, End, s);
      ScanUnfold(cell, s, e);
      var a := cell[s + 6..e];
      forall q | 0 <= q <= |a| - 2 ensures !StartsAt(a, q, End) {
        StartsAtSlice(cell, s + 6, e, q, End);
      }
      ScanAnswersHaveNoEnd(cell[e + 2..]);
    } else {
      FindContains(cell, Start);
      ScanUnchanged(cell);
    }
  }

  /** A cell whose first opening token has no closing token after it is left
      unchanged and yields no answer; so is a cell without an opening token. */
  lemma ScanUnchanged(cell: string)
    requires !Contains(cell, Start) || Find(cell, End, Find(cell, Start, 0)) < 0
    ensures Scan(cell) == (cell, [])
  {
    FindContains(cell, Start);
  }

  /** The malformed example: a missing closing token leaves the cell as it is. */
  lemma MalformedExample()
    ensures Scan("A {{c1::X B") == ("A {{c1::X B", [])
  {
    var c := "A {{c1::X B";
    NotStartsAt(c, 0, Start, 0);
    NotStartsAt(c, 1, Start, 0);
    assert c[2..8] == Start;
    FindIs(c, Start, 2);
    forall q | 2 <= q ensures !StartsAt(c, q, End) {
      NotStartsAt(c, q, End, 0);
    }
  }

  /** The span of the well-formed example. */
  lemma ExampleSpan(c: string)
    requires c == "A {{c1::X}} B"
    ensures FirstSpan(c) == Some((2, 9))
  {
    assert Find(c, Start, 0) == 2 by {
      NotStartsAt(c, 0, Start, 0);
      NotStartsAt(c, 1, Start, 0);
      assert c[2] == c[3] == '{' && c[4] == 'c' && c[5] == '1' && c[6] == c[7] == ':';
      forall i | 0 <= i < 6 ensures c[2..8][i] == Start[i] {
        assert c[2..8][i] == c[2 + i];
      }
      assert c[2..8] == Start;
      FindIs(c, Start, 2);
    }
    assert Find(c, End, 2) == 9 by {
      forall q | 2 <= q < 9 ensures !StartsAt(c, q, End) {
        NotStartsAt(c, q, End, 0);
      }
      assert c[9..11] == End;
      assert Find(c, End, 9) == 9;
      FindSkip(c, End, 2, 9);
    }
  }

  /** The text after the span of the well-formed example holds no span. */
  lemma ExampleTail(t: string)
    requires t == " B"
    ensures Scan(t) == (t, [])
  {
    NotStartsAt(t, 0, Start, 0);
    NotStartsAt(t, 1, Start, 0);
    FindContains(t, Start);
    ScanUnchanged(t);
  }

  /** The well-formed example: one span becomes one placeholder and one answer. */
  lemma WellFormedExample(c: string)
    requires c == "A {{c1::X}} B"
    ensures Scan(c) == ("A $Blankspace$ B", ["X"])
  {
    ExampleSpan(c);
    var t := c[11..];
    assert t == " B";
    ExampleTail(t);
    assert Scan(c) == (c[..2] + Blank + Scan(t).0, [c[8..9]] + Scan(t).1);
    assert c[..2] == "A " && c[8..9] == "X";
    assert c[..2] + Blank + t == "A $Blankspace$ B";
    assert [c[8..9]] + [] == ["X"];
  }
}
