/// The tab-separated to Moodle GIFT converter: escaping of GIFT markup,
/// detection of the correct option and the row loop that writes the blocks.
module GiftConvert {
  import opened Wrappers
  import opened Strings

  // ---------------------------------------------------------------------
  // sanitize_gift_text
  // ---------------------------------------------------------------------

  /** The characters with a meaning in GIFT markup that get escaped. */
  predicate IsControl(c: char) {
    c == '{' || c == '}' || c == '=' || c == '~'
  }

  /** The replacement table, in the order the dictionary is iterated. */
  const Replacements: seq<(string, string)> := [("{", "\\{"), ("}", "\\}"), ("=", "\\="), ("~", "\\~")]

  /** The text after applying the replacements one after the other. */
  function ReplaceAll(text: string, reps: seq<(string, string)>): string
    requires forall i :: 0 <= i < |reps| ==> |reps[i].0| > 0
  {
    if reps == [] then text
    else
      var last := reps[|reps| - 1];
      Replace(ReplaceAll(text, reps[..|reps| - 1]), last.0, last.1)
  }

  /** `sanitize_gift_text`. */
  function Sanitize(text: string): string {
    ReplaceAll(text, Replacements)
  }

  /** One character escaped: a control character gets a backslash before it. */
  function Esc(x: char): string {
    if IsControl(x) then ['\\', x] else [x]
  }

  /** The reference definition: every control character escaped, all else kept. */
  function Escape(s: string): string {
    if s == [] then [] else Esc(s[0]) + Escape(s[1..])
  }

  /** Every occurrence of one character replaced by a text, position by position. */
  function SubChar(s: string, c: char, rep: string): string {
    if s == [] then [] else (if s[0] == c then rep else [s[0]]) + SubChar(s[1..], c, rep)
  }

  lemma {:induction false} SubCharConcat(a: string, b: string, c: char, rep: string)
    ensures SubChar(a + b, c, rep) == SubChar(a, c, rep) + SubChar(b, c, rep)
  {
    if a != [] {
      var h := if a[0] == c then rep else [a[0]];
      assert (a + b)[0] == a[0];
      assert (a + b)[1..] == a[1..] + b;
      assert SubChar(a + b, c, rep) == h + SubChar(a[1..] + b, c, rep);
      SubCharConcat(a[1..], b, c, rep);
      AppendAssoc(h, SubChar(a[1..], c, rep), SubChar(b, c, rep));
    } else {
      assert a + b == b;
    }
  }

  lemma {:induction false} SubCharAbsent(s: string, c: char, rep: string)
    requires forall i :: 0 <= i < |s| ==> s[i] != c
    ensures SubChar(s, c, rep) == s
  {
    if s != [] {
      SubCharAbsent(s[1..], c, rep);
    }
  }

  /** Where a one-character pattern is found first: no earlier character is
      the pattern's. */
  lemma FindCharBefore(s: string, c: char)
    ensures var i := Find(s, [c], 0);
      (i >= 0 ==> i < |s| && s[i] == c)
      && forall k :: 0 <= k < |s| && (i < 0 || k < i) ==> s[k] != c
  {
    var i := Find(s, [c], 0);
    forall k | 0 <= k < |s| && (i < 0 || k < i) ensures s[k] != c {
      assert s[k..k + 1] == [s[k]];
      assert !StartsAt(s, k, [c]);
    }
    if i >= 0 {
      assert s[i..i + 1] == [c];
    }
  }

  /** Python's replace of a one-character pattern substitutes every occurrence
      of that character. */
  lemma {:induction false} ReplaceChar(s: string, c: char, rep: string)
    ensures Replace(s, [c], rep) == SubChar(s, c, rep)
    decreases |s|
  {
    var i := Find(s, [c], 0);
    FindCharBefore(s, c);
    if i < 0 { SubCharAbsent(s, c, rep); }
    else {
      var pre, tail := s[..i], s[i + 1..];
      ReplaceCharStep(s, c, rep, i, pre, tail);
      ReplaceChar(tail, c, rep);
    }
  }

  /** Both sides of `ReplaceChar` unfold the same way at the first occurrence `i`. */
  lemma ReplaceCharStep(s: string, c: char, rep: string, i: int, pre: string, tail: string)
    requires i == Find(s, [c], 0) && i >= 0 && pre == s[..i] && tail == s[i + 1..]
    ensures Replace(s, [c], rep) == pre + rep + Replace(tail, [c], rep)
    ensures SubChar(s, c, rep) == pre + rep + SubChar(tail, c, rep)
  {
    ReplaceFirst(s, [c], rep, i);
    var head := pre + [c];
    assert SubChar(head, c, rep) == pre + rep by {
      FindCharBefore(s, c);
      SubCharAbsent(pre, c, rep);
      SubCharConcat(pre, [c], c, rep);
      assert SubChar([c], c, rep) == rep + SubChar([], c, rep);
    }
    assert s == head + tail;
    SubCharConcat(head, tail, c, rep);
  }


  /** The four substitutions in table order. */
  function Stages(s: string): string {
    SubChar(SubChar(SubChar(SubChar(s, '{', "\\{"), '}', "\\}"), '=', "\\="), '~', "\\~")
  }

  lemma StagesConcat(a: string, b: string)
    ensures Stages(a + b) == Stages(a) + Stages(b)
  {
    var a1, b1 := SubChar(a, '{', "\\{"), SubChar(b, '{', "\\{");
    var a2, b2 := SubChar(a1, '}', "\\}"), SubChar(b1, '}', "\\}");
    var a3, b3 := SubChar(a2, '=', "\\="), SubChar(b2, '=', "\\=");
    SubCharConcat(a, b, '{', "\\{");
    SubCharConcat(a1, b1, '}', "\\}");
    SubCharConcat(a2, b2, '=', "\\=");
    SubCharConcat(a3, b3, '~', "\\~");
  }

  /** One character through the four stages. */
  lemma StagesOne(x: char)
    ensures Stages([x]) == Esc(x)
  {
    if x == '{' {
      assert SubChar([x], '{', "\\{") == "\\{";
      assert SubChar("\\{", '}', "\\}") == "\\{";
      assert SubChar("\\{", '=', "\\=") == "\\{";
      assert SubChar("\\{", '~', "\\~") == "\\{";
    } else if x == '}' {
      assert SubChar([x], '{', "\\{") == [x];
      assert SubChar([x], '}', "\\}") == "\\}";
      assert SubChar("\\}", '=', "\\=") == "\\}";
      assert SubChar("\\}", '~', "\\~") == "\\}";
    } else if x == '=' {
      assert SubChar([x], '{', "\\{") == [x];
      assert SubChar([x], '}', "\\}") == [x];
      assert SubChar([x], '=', "\\=") == "\\=";
      assert SubChar("\\=", '~', "\\~") == "\\=";
    } else {
      assert SubChar([x], '{', "\\{") == [x];
      assert SubChar([x], '}', "\\}") == [x];
      assert SubChar([x], '=', "\\=") == [x];
    }
  }

  /** No replacement re-escapes the output of an earlier one, so the four
      stages escape each character on its own. */
  lemma {:induction false} StagesEscape(s: string)
    ensures Stages(s) == Escape(s)
  {
    if s != [] {
      assert s == [s[0]] + s[1..];
      StagesConcat([s[0]], s[1..]);
      StagesOne(s[0]);
      StagesEscape(s[1..]);
    }
  }

  /** `sanitize_gift_text` escapes exactly the control characters. */
  lemma SanitizeIsEscape(text: string)
    ensures Sanitize(text) == Escape(text)
  {
    var t1 := Replace(text, "{", "\\{");
    var t2 := Replace(t1, "}", "\\}");
    var t3 := Replace(t2, "=", "\\=");
    var r := Replacements;
    assert r[..1][..0] == [] && r[..1][0] == ("{", "\\{");
    assert r[..2][..1] == r[..1] && r[..2][1] == ("}", "\\}");
    assert r[..3][..2] == r[..2] && r[..3][2] == ("=", "\\=");
    assert r[..4][..3] == r[..3] && r[..4] == r && r[3] == ("~", "\\~");
    assert ReplaceAll(text, r[..1]) == t1;
    assert ReplaceAll(text, r[..2]) == t2;
    assert ReplaceAll(text, r[..3]) == t3;
    assert Sanitize(text) == Replace(t3, "~", "\\~");
    ReplaceChar(text, '{', "\\{");
    ReplaceChar(t1, '}', "\\}");
    ReplaceChar(t2, '=', "\\=");
    ReplaceChar(t3, '~', "\\~");
    StagesEscape(text);
  }

  /** The for loop of `sanitize_gift_text`. */
  method SanitizeGiftText(text0: string) returns (text: string)
    ensures text == Sanitize(text0)
    ensures text == Escape(text0)
  {
    text := text0;
    for i := 0 to |Replacements|
      invariant text == ReplaceAll(text0, Replacements[..i])
    {
      var (k, v) := Replacements[i];
      assert Replacements[..i + 1][..i] == Replacements[..i];
      text := Replace(text, k, v);
    }
    assert Replacements[..|Replacements|] == Replacements;
    SanitizeIsEscape(text0);
  }

  /** Deleting the backslash in front of every control character. */
  function Unescape(t: string): string
    decreases |t|
  {
    if t == [] then []
    else if |t| >= 2 && t[0] == '\\' && IsControl(t[1]) then [t[1]] + Unescape(t[2..])
    else [t[0]] + Unescape(t[1..])
  }

  /** An escaped text never starts with a control character. */
  lemma EscapeHead(s: string)
    requires s != []
    ensures |Escape(s)| > 0 && !IsControl(Escape(s)[0])
  {
  }

  /** Escaping loses nothing: removing the inserted backslashes gives the text
      back, even when it already held backslashes. */
  lemma {:induction false} UnescapeEscape(s: string)
    ensures Unescape(Escape(s)) == s
  {
    if s != [] {
      var x, rest := s[0], s[1..];
      UnescapeEscape(rest);
      var t := Escape(s);
      assert t == Esc(x) + Escape(rest);
      if IsControl(x) {
        assert t[2..] == Escape(rest);
      } else {
        assert t[1..] == Escape(rest);
        if |t| >= 2 {
          EscapeHead(rest);
          assert t[1] == Escape(rest)[0];
        }
      }
      assert s == [x] + rest;
    }
  }

  /** Every control character of `t` has a backslash right before it. */
  predicate Guarded(t: string) {
    forall i :: 0 <= i < |t| && IsControl(t[i]) ==> 0 < i && t[i - 1] == '\\'
  }

  /** Escaped text is safe to place in GIFT markup. */
  lemma {:induction false} EscapeGuarded(s: string)
    ensures Guarded(Escape(s))
  {
    if s != [] {
      var e, r := Esc(s[0]), Escape(s[1..]);
      EscapeGuarded(s[1..]);
      var t := e + r;
      forall i | 0 <= i < |t| && IsControl(t[i]) ensures 0 < i && t[i - 1] == '\\' {
        if i >= |e| {
          assert t[i] == r[i - |e|];
          assert i - |e| > 0;
          assert t[i - 1] == r[i - 1 - |e|];
        }
      }
    }
  }

  /** Escaping makes a text containing a control character longer. */
  lemma {:induction false} EscapeLonger(s: string)
    ensures |Escape(s)| >= |s|
    ensures HasChar(s, '{') || HasChar(s, '}') || HasChar(s, '=') || HasChar(s, '~') ==> |Escape(s)| > |s|
  {
    if s != [] {
      EscapeLonger(s[1..]);
      if !IsControl(s[0]) && (HasChar(s, '{') || HasChar(s, '}') || HasChar(s, '=') || HasChar(s, '~')) {
        var i :| 0 <= i < |s| && IsControl(s[i]);
        assert s[1..][i - 1] == s[i];
      }
    }
  }

  // ---------------------------------------------------------------------
  // detect_correct_index
  // ---------------------------------------------------------------------

  /** The letters accepted for the four options. */
  const LetterIndex: map<string, nat> := map["A" := 0, "B" := 1, "C" := 2, "D" := 3]

  /** The first option at or after `from` equal to `answer` ignoring case. */
  function TextMatch(answer: string, options: seq<string>, from: nat): Option<nat>
    decreases |options| - from
  {
    if from >= |options| then None
    else if Lower(answer) == Lower(options[from]) then Some(from)
    else TextMatch(answer, options, from + 1)
  }

  /** The match found is an option equal to the answer ignoring case with none
      before it; no match means no option is. */
  lemma {:induction false} TextMatchSpec(answer: string, options: seq<string>, from: nat)
    ensures var r := TextMatch(answer, options, from);
      (r.Some? ==> from <= r.value < |options| && Lower(options[r.value]) == Lower(answer))
      && (r.Some? ==> forall j :: from <= j < r.value ==> Lower(options[j]) != Lower(answer))
      && (r.None? <==> forall j :: from <= j < |options| ==> Lower(options[j]) != Lower(answer))
    decreases |options| - from
  {
    if from < |options| && Lower(answer) != Lower(options[from]) {
      TextMatchSpec(answer, options, from + 1);
    }
  }

  /** `detect_correct_index`: a number from 1 to the option count, else one of
      the letters A to D in either case, else the text of an option ignoring
      case. A letter is not checked against the option count. */
  function CorrectIndex(correctRaw: string, options: seq<string>): Option<nat> {
    var c := Strip(correctRaw);
    if IsDigits(c) && 1 <= DigitsValue(c) <= |options| then Some(DigitsValue(c) - 1)
    else if Upper(c) in LetterIndex then Some(LetterIndex[Upper(c)])
    else TextMatch(c, options, 0)
  }

  /** An index past the options can only come from a letter; no index is
      found exactly when the answer is neither a number in range, nor a
      letter, nor the text of an option. */
  lemma CorrectIndexSpec(correctRaw: string, options: seq<string>)
    ensures var r := CorrectIndex(correctRaw, options); var c := Strip(correctRaw);
      (r.Some? ==> r.value < |options| || (Upper(c) in LetterIndex && r.value == LetterIndex[Upper(c)]))
      && (r.Some? ==> r.value < |options| || r.value < 4)
      && (r.None? <==>
        !(IsDigits(c) && 1 <= DigitsValue(c) <= |options|) && Upper(c) !in LetterIndex
        && forall j :: 0 <= j < |options| ==> Lower(options[j]) != Lower(c))
  {
    TextMatchSpec(Strip(correctRaw), options, 0);
  }

  /** The same function with its loop over the options. */
  method DetectCorrectIndex(correctRaw0: string, options: seq<string>) returns (r: Option<nat>)
    ensures r == CorrectIndex(correctRaw0, options)
  {
    var correctRaw := Strip(correctRaw0);
    if IsDigits(correctRaw) {
      var idx := DigitsValue(correctRaw) - 1;
      if 0 <= idx < |options| {
        return Some(idx);
      }
    }
    var letter := Upper(correctRaw);
    if letter in LetterIndex {
      return Some(LetterIndex[letter]);
    }
    for i := 0 to |options|
      invariant TextMatch(correctRaw, options, i) == TextMatch(correctRaw, options, 0)
    {
      if Lower(correctRaw) == Lower(options[i]) {
        return Some(i);
      }
    }
    return None;
  }

  /** With four options, as the converter always passes, the index found is
      always one of them. */
  lemma CorrectIndexInRange(correctRaw: string, options: seq<string>)
    requires |options| >= 4
    ensures CorrectIndex(correctRaw, options).Some? ==> CorrectIndex(correctRaw, options).value < |options|
  {
    CorrectIndexSpec(correctRaw, options);
  }

  lemma LStripUpper(s: string)
    ensures Upper(LStrip(s)) == LStrip(Upper(s))
    decreases |s|
  {
    if |s| > 0 {
      var u := Upper(s);
      assert u[0] == UpperChar(s[0]);
      if IsSpace(s[0]) {
        assert u[1..] == Upper(s[1..]);
        LStripUpper(s[1..]);
      }
    }
  }

  lemma RStripUpper(s: string)
    ensures Upper(RStrip(s)) == RStrip(Upper(s))
    decreases |s|
  {
    if |s| > 0 {
      var u := Upper(s);
      assert u[|s| - 1] == UpperChar(s[|s| - 1]);
      if IsSpace(s[|s| - 1]) {
        assert u[..|s| - 1] == Upper(s[..|s| - 1]);
        RStripUpper(s[..|s| - 1]);
      }
    }
  }

  /** Stripping and upper-casing commute, as white space has no case. */
  lemma StripUpper(s: string)
    ensures Upper(Strip(s)) == Strip(Upper(s))
  {
    LStripUpper(s);
    RStripUpper(LStrip(s));
  }

  /** Two texts equal up to case are equal once lower-cased, and a run of
      digits is only equal up to case to itself. */
  lemma SameUpper(a: string, b: string)
    requires Upper(a) == Upper(b)
    ensures Lower(a) == Lower(b)
    ensures IsDigits(a) ==> a == b
  {
    assert |a| == |Upper(a)| == |Upper(b)| == |b|;
    forall i | 0 <= i < |a| ensures LowerChar(a[i]) == LowerChar(b[i]) && (IsDigit(a[i]) ==> a[i] == b[i]) {
      assert UpperChar(a[i]) == Upper(a)[i] == Upper(b)[i] == UpperChar(b[i]);
    }
  }

  lemma {:induction false} TextMatchLower(a: string, b: string, options: seq<string>, from: nat)
    requires Lower(a) == Lower(b)
    ensures TextMatch(a, options, from) == TextMatch(b, options, from)
    decreases |options| - from
  {
    if from < |options| {
      TextMatchLower(a, b, options, from + 1);
    }
  }

  /** The correct column is read without regard to case: answers that differ
      only in case select the same option. */
  lemma CorrectIndexIgnoresCase(a: string, b: string, options: seq<string>)
    requires Upper(a) == Upper(b)
    ensures CorrectIndex(a, options) == CorrectIndex(b, options)
  {
    var ca, cb := Strip(a), Strip(b);
    StripUpper(a);
    StripUpper(b);
    SameUpper(ca, cb);
    SameUpper(cb, ca);
    TextMatchLower(ca, cb, options, 0);
  }

  /** A letter is taken before any option text: an option whose text is the
      letter of another option loses. */
  lemma LetterBeforeText(correctRaw: string, options: seq<string>)
    requires |options| >= 4 && Upper(Strip(correctRaw)) in LetterIndex
    ensures CorrectIndex(correctRaw, options) == Some(LetterIndex[Upper(Strip(correctRaw))])
  {
    var c := Strip(correctRaw);
    var u := Upper(c);
    assert u == "A" || u == "B" || u == "C" || u == "D";
    assert |c| == |u| == 1;
    assert u[0] == UpperChar(c[0]);
    assert !IsDigit(c[0]);
  }

  /** The comparison made by the converter: the answer as typed against the
      escaped options. An answer holding a control character is then never
      found by its text, not even in the option it was copied from. */
  lemma RawAnswerMissesOption(correctRaw: string, options: seq<string>, k: nat)
    requires k < |options| && options[k] == Sanitize(Strip(correctRaw))
    requires var c := Strip(correctRaw); HasChar(c, '{') || HasChar(c, '}') || HasChar(c, '=') || HasChar(c, '~')
    ensures CorrectIndex(correctRaw, options) != Some(k)
  {
    var c := Strip(correctRaw);
    SanitizeIsEscape(c);
    EscapeLonger(c);
    TextMatchSpec(c, options, 0);
    assert |Lower(options[k])| == |options[k]| && |Lower(c)| == |c| && |Upper(c)| == |c|;
    assert |c| == 1 ==> Upper(c)[0] == UpperChar(c[0]) && c[0] in "{}=~";
    assert |Lower(options[k])| != |Lower(c)|;
  }

  /** `detect_correct_index` as evidently intended: the answer text escaped
      like the options before it is compared with them. */
  function IntendedIndex(correctRaw: string, options: seq<string>): (r: Option<nat>)
  {
    var c := Strip(correctRaw);
    if IsDigits(c) && 1 <= DigitsValue(c) <= |options| then Some(DigitsValue(c) - 1)
    else if Upper(c) in LetterIndex then Some(LetterIndex[Upper(c)])
    else TextMatch(Sanitize(c), options, 0)
  }

  /** Lower-casing leaves the control characters and the backslash alone. */
  lemma {:induction false} EscapeLower(s: string)
    ensures Lower(Escape(s)) == Escape(Lower(s))
  {
    if s != [] {
      EscapeLower(s[1..]);
      assert Lower(s)[1..] == Lower(s[1..]);
      assert Lower(Esc(s[0]) + Escape(s[1..])) == Lower(Esc(s[0])) + Lower(Escape(s[1..]));
    }
  }

  /** Escaped texts are equal ignoring case exactly when the texts are. */
  lemma SanitizedSameCase(a: string, b: string)
    ensures Lower(Sanitize(a)) == Lower(Sanitize(b)) <==> Lower(a) == Lower(b)
  {
    SanitizeIsEscape(a);
    SanitizeIsEscape(b);
    EscapeLower(a);
    EscapeLower(b);
    UnescapeEscape(Lower(a));
    UnescapeEscape(Lower(b));
  }

  lemma {:induction false} TextMatchSanitized(answer: string, texts: seq<string>, options: seq<string>, from: nat)
    requires |options| == |texts| && forall j :: 0 <= j < |texts| ==> options[j] == Sanitize(texts[j])
    ensures TextMatch(Sanitize(answer), options, from) == TextMatch(answer, texts, from)
    decreases |options| - from
  {
    if from < |options| {
      SanitizedSameCase(answer, texts[from]);
      TextMatchSanitized(answer, texts, options, from + 1);
    }
  }

  /** With the answer escaped too, an option is found by its text exactly as
      if no option had been escaped. */
  lemma IntendedFindsText(correctRaw: string, texts: seq<string>, options: seq<string>)
    requires |options| == |texts| && forall j :: 0 <= j < |texts| ==> options[j] == Sanitize(texts[j])
    ensures IntendedIndex(correctRaw, options) == CorrectIndex(correctRaw, texts)
  {
    TextMatchSanitized(Strip(correctRaw), texts, options, 0);
  }

  // ---------------------------------------------------------------------
  // tsv_to_gift
  // ---------------------------------------------------------------------

  /** A wrong option line per option, in order. */
  function WrongLines(options: seq<string>): string {
    if options == [] then ""
    else WrongLines(options[..|options| - 1]) + "~" + options[|options| - 1] + "\n"
  }

  /** The option lines: `=` before the correct option, `~` before the others. */
  function OptionLines(options: seq<string>, correct: nat): string {
    if options == [] then ""
    else
      var i := |options| - 1;
      OptionLines(options[..i], correct) + (if i == correct then "=" else "~") + options[i] + "\n"
  }

  lemma {:induction false} OptionLinesBelow(options: seq<string>, correct: nat)
    requires |options| <= correct
    ensures OptionLines(options, correct) == WrongLines(options)
  {
    if options != [] {
      OptionLinesBelow(options[..|options| - 1], correct);
    }
  }

  /** Exactly one option line is marked correct, the one at the index. */
  lemma {:induction false} OptionLinesSplit(options: seq<string>, correct: nat)
    requires correct < |options|
    ensures OptionLines(options, correct)
      == WrongLines(options[..correct]) + "=" + options[correct] + "\n" + WrongLines(options[correct + 1..])
  {
    var n := |options|;
    var init := options[..n - 1];
    if n - 1 == correct {
      OptionLinesBelow(init, correct);
      assert options[correct + 1..] == [];
    } else {
      OptionLinesSplit(init, correct);
      var tail := options[correct + 1..];
      assert tail[..|tail| - 1] == init[correct + 1..];
      assert init[..correct] == options[..correct];
      assert tail[|tail| - 1] == options[n - 1];
    }
  }

  /** The inner loop of `tsv_to_gift`: one line per option. */
  method WriteOptions(options: seq<string>, correct: nat) returns (lines: string)
    ensures lines == OptionLines(options, correct)
  {
    lines := "";
    for i := 0 to |options|
      invariant lines == OptionLines(options[..i], correct)
    {
      assert options[..i + 1][..i] == options[..i];
      var prefix := if i == correct then "=" else "~";
      lines := lines + prefix + options[i] + "\n";
    }
    assert options[..|options|] == options;
  }

  /** The block written for one question. */
  function GiftBlock(rowNum: nat, question: string, options: seq<string>, correct: nat): string {
    "::Q" + NatToString(rowNum) + ":: " + question + " {\n" + OptionLines(options, correct) + "}\n\n"
  }

  /** A block marks the option at the index correct and all others wrong. */
  lemma GiftBlockSplit(rowNum: nat, question: string, options: seq<string>, correct: nat)
    requires correct < |options|
    ensures GiftBlock(rowNum, question, options, correct)
      == "::Q" + NatToString(rowNum) + ":: " + question + " {\n"
        + WrongLines(options[..correct]) + "=" + options[correct] + "\n"
        + WrongLines(options[correct + 1..]) + "}\n\n"
  {
    OptionLinesSplit(options, correct);
  }

  /** The four options of a row: cells 1 to 4, stripped and escaped. */
  function RowOptions(row: seq<string>): seq<string>
    requires |row| >= 5
  {
    [Sanitize(Strip(row[1])), Sanitize(Strip(row[2])), Sanitize(Strip(row[3])), Sanitize(Strip(row[4]))]
  }

  /** The word whose presence in the first cell of row 1 marks a header. */
  const HeaderWord := "question"

  /** The block a row gives, numbered by its 1-based row number; rows of
      fewer than six cells, a header in row 1 and rows without a detectable
      answer give none. */
  function RowBlock(rowNum: nat, row: seq<string>): Option<string> {
    if |row| < 6 then None
    else if rowNum == 1 && Contains(Lower(row[0]), HeaderWord) then None
    else QuestionBlock(rowNum, row)
  }

  /** The block of a row that is neither short nor the header: none when no
      answer is detected. */
  function QuestionBlock(rowNum: nat, row: seq<string>): Option<string>
    requires |row| >= 6
  {
    var options := RowOptions(row);
    var correct := CorrectIndex(Strip(row[5]), options);
    if correct.None? then None
    else Some(GiftBlock(rowNum, Sanitize(Strip(row[0])), options, correct.value))
  }

  /** What each row gives, row by row. */
  function Outcomes(rows: seq<seq<string>>): seq<Option<string>>
  {
    seq(|rows|, k requires 0 <= k < |rows| => RowBlock(k + 1, rows[k]))
  }

  /** The present values of a sequence of options, in order. */
  function Somes<T>(xs: seq<Option<T>>): seq<T> {
    if xs == [] then []
    else
      var x := xs[|xs| - 1];
      Somes(xs[..|xs| - 1]) + (if x.Some? then [x.value] else [])
  }

  /** The blocks of a table, in row order. */
  function Blocks(rows: seq<seq<string>>): seq<string> {
    Somes(Outcomes(rows))
  }

  lemma SomesSnoc<T>(xs: seq<Option<T>>, x: Option<T>)
    ensures Somes(xs + [x]) == Somes(xs) + (if x.Some? then [x.value] else [])
  {
    assert (xs + [x])[..|xs|] == xs;
  }

  lemma OutcomesSnoc(rows: seq<seq<string>>, i: nat)
    requires i < |rows|
    ensures Outcomes(rows[..i + 1]) == Outcomes(rows[..i]) + [RowBlock(i + 1, rows[i])]
  {
  }

  /** Every present value appears, nothing else does, and there are at most
      as many values as options. */
  lemma {:induction false} SomesSpec<T>(xs: seq<Option<T>>)
    ensures forall k :: 0 <= k < |xs| && xs[k].Some? ==> xs[k].value in Somes(xs)
    ensures forall b :: b in Somes(xs) ==> exists k :: 0 <= k < |xs| && xs[k] == Some(b)
    ensures |Somes(xs)| <= |xs|
  {
    if xs != [] {
      var init := xs[..|xs| - 1];
      SomesSpec(init);
      forall k | 0 <= k < |init| ensures init[k] == xs[k] { }
    }
  }

  /** The text of the output file. */
  function GiftText(blocks: seq<string>): string {
    if blocks == [] then "" else GiftText(blocks[..|blocks| - 1]) + blocks[|blocks| - 1]
  }

  /** The body of the row loop of `tsv_to_gift`. */
  method ConvertRow(rowNum: nat, row: seq<string>) returns (block: Option<string>)
    ensures block == RowBlock(rowNum, row)
  {
    if |row| < 6 {
      return None;
    }
    if rowNum == 1 && Contains(Lower(row[0]), HeaderWord) {
      return None;
    }
    var question := SanitizeGiftText(Strip(row[0]));
    var o1 := SanitizeGiftText(Strip(row[1]));
    var o2 := SanitizeGiftText(Strip(row[2]));
    var o3 := SanitizeGiftText(Strip(row[3]));
    var o4 := SanitizeGiftText(Strip(row[4]));
    var options := [o1, o2, o3, o4];
    var correctRaw := Strip(row[5]);
    var correctIndex := DetectCorrectIndex(correctRaw, options);
    if correctIndex == None {
      return None;
    }
    var lines := WriteOptions(options, correctIndex.value);
    block := Some("::Q" + NatToString(rowNum) + ":: " + question + " {\n" + lines + "}\n\n");
  }

  /** `tsv_to_gift` on the rows of the file: the text written and the number
      of questions converted. */
  method TsvToGift(rows: seq<seq<string>>) returns (gift: string, questionsConverted: nat)
    ensures gift == GiftText(Blocks(rows))
    ensures questionsConverted == |Blocks(rows)|
  {
    gift := "";
    questionsConverted := 0;
    for i := 0 to |rows|
      invariant gift == GiftText(Blocks(rows[..i]))
      invariant questionsConverted == |Blocks(rows[..i])|
    {
      assert rows[..i + 1][..i] == rows[..i];
      var block := ConvertRow(i + 1, rows[i]);
      assert Blocks(rows[..i + 1]) == Blocks(rows[..i]) + (if block.Some? then [block.value] else []) by {
        OutcomesSnoc(rows, i);
        SomesSnoc(Outcomes(rows[..i]), block);
      }
      if block.None? {
        assert Blocks(rows[..i]) + [] == Blocks(rows[..i]);
        continue;
      }
      assert [block.value][..0] == [];
      assert GiftText([block.value]) == block.value;
      GiftTextConcat(Blocks(rows[..i]), [block.value]);
      gift := gift + block.value;
      questionsConverted := questionsConverted + 1;
    }
    assert rows[..|rows|] == rows;
  }

  /** A block is written only for a row of at least six cells that is not the
      header; it carries the row number, the escaped question, and exactly one
      option marked correct among the four escaped options. */
  lemma RowBlockShape(rowNum: nat, row: seq<string>)
    requires RowBlock(rowNum, row).Some?
    ensures |row| >= 6 && !(rowNum == 1 && Contains(Lower(row[0]), HeaderWord))
    ensures var options := RowOptions(row);
      var correct := CorrectIndex(Strip(row[5]), options);
      correct.Some? && correct.value < 4
      && RowBlock(rowNum, row).value
        == "::Q" + NatToString(rowNum) + ":: " + Sanitize(Strip(row[0])) + " {\n"
          + WrongLines(options[..correct.value]) + "=" + options[correct.value] + "\n"
          + WrongLines(options[correct.value + 1..]) + "}\n\n"
  {
    var options := RowOptions(row);
    var k := CorrectIndex(Strip(row[5]), options).value;
    assert RowBlock(rowNum, row).value == GiftBlock(rowNum, Sanitize(Strip(row[0])), options, k);
    CorrectIndexInRange(Strip(row[5]), options);
    GiftBlockSplit(rowNum, Sanitize(Strip(row[0])), options, k);
  }

  /** The blocks are exactly those of the rows that give one, each numbered
      by its own row number, which counts skipped rows too. */
  lemma BlocksRows(rows: seq<seq<string>>)
    ensures forall k :: 0 <= k < |rows| && RowBlock(k + 1, rows[k]).Some? ==> RowBlock(k + 1, rows[k]).value in Blocks(rows)
    ensures forall b :: b in Blocks(rows) ==> exists k :: 0 <= k < |rows| && RowBlock(k + 1, rows[k]) == Some(b)
    ensures |Blocks(rows)| <= |rows|
  {
    SomesSpec(Outcomes(rows));
    assert forall k :: 0 <= k < |rows| ==> Outcomes(rows)[k] == RowBlock(k + 1, rows[k]);
  }

  /** The header test applies to row 1 only: a later row mentioning the word
      is converted like any other. */
  lemma HeaderOnlyFirst(rowNum: nat, row: seq<string>)
    requires rowNum != 1 && |row| >= 6
    ensures RowBlock(rowNum, row).Some? <==> CorrectIndex(Strip(row[5]), RowOptions(row)).Some?
  {
  }

  /** The output is the blocks one after the other. */
  lemma {:induction false} GiftTextConcat(a: seq<string>, b: seq<string>)
    ensures GiftText(a + b) == GiftText(a) + GiftText(b)
  {
    if b != [] {
      assert (a + b)[..|a + b| - 1] == a + b[..|b| - 1];
      assert (a + b)[|a + b| - 1] == b[|b| - 1];
      GiftTextConcat(a, b[..|b| - 1]);
    } else {
      assert a + b == a;
    }
  }
}
