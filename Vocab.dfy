/// The vocabulary question parser: numbered questions, lettered options and
/// an `Answer:` line become GIFT multiple-choice blocks.
module Vocab {
  import opened Wrappers
  import opened Strings

  // ---------------------------------------------------------------------
  // Input lines
  // ---------------------------------------------------------------------

  /** The lines of the file, stripped, with the blank ones dropped. */
  function CleanLines(raw: seq<string>): seq<string> {
    if raw == [] then []
    else
      var l := Strip(raw[|raw| - 1]);
      CleanLines(raw[..|raw| - 1]) + (if l != "" then [l] else [])
  }

  /** Every kept line is non-empty and already stripped, and each one comes
      from a line of the file. */
  lemma {:induction false} CleanLinesSpec(raw: seq<string>)
    ensures |CleanLines(raw)| <= |raw|
    ensures forall l :: l in CleanLines(raw) ==> l != "" && Strip(l) == l
    ensures forall l :: l in CleanLines(raw) ==> exists k :: 0 <= k < |raw| && l == Strip(raw[k])
  {
    if raw != [] {
      var init := raw[..|raw| - 1];
      CleanLinesSpec(init);
      StripIdempotent(raw[|raw| - 1]);
      forall k | 0 <= k < |init| ensures init[k] == raw[k] { }
    }
  }

  /** Cleaning cleaned lines changes nothing. */
  lemma {:induction false} CleanLinesIdempotent(raw: seq<string>)
    ensures CleanLines(CleanLines(raw)) == CleanLines(raw)
  {
    if raw != [] {
      var init := raw[..|raw| - 1];
      var l := Strip(raw[|raw| - 1]);
      CleanLinesIdempotent(init);
      var c := CleanLines(init);
      if l != "" {
        StripIdempotent(raw[|raw| - 1]);
        assert (c + [l])[..|c|] == c && (c + [l])[|c|] == l;
        assert CleanLines(c + [l]) == CleanLines(c) + [l];
      } else {
        assert CleanLines(raw) == c + [] == c;
      }
    }
  }

  // ---------------------------------------------------------------------
  // Line patterns
  // ---------------------------------------------------------------------

  /** The number of decimal digits `s` starts with. */
  function LeadingDigits(s: string): (r: nat)
    ensures r <= |s|
  {
    DigitsEnd(s, 0)
  }

  /** The end of the run of digits of `s` from index `i`. */
  function DigitsEnd(s: string, i: nat): (r: nat)
    requires i <= |s|
    ensures i <= r <= |s|
    decreases |s| - i
  {
    if i < |s| && IsDigit(s[i]) then DigitsEnd(s, i + 1) else i
  }

  /** The run counted is made of digits and is not followed by one. */
  lemma {:induction false} DigitsEndSpec(s: string, i: nat)
    requires i <= |s|
    ensures forall j :: i <= j < DigitsEnd(s, i) ==> IsDigit(s[j])
    ensures DigitsEnd(s, i) < |s| ==> !IsDigit(s[DigitsEnd(s, i)])
    decreases |s| - i
  {
    if i < |s| && IsDigit(s[i]) {
      DigitsEndSpec(s, i + 1);
    }
  }

  /** A question line: digits, a dot, optional white space, then text ending
      in a question mark, which is the question. */
  function QuestionText(line: string): Option<string> {
    var k := LeadingDigits(line);
    if k == 0 || k >= |line| || line[k] != '.' then None
    else
      var t := LStrip(line[k + 1..]);
      if |t| > 0 && t[|t| - 1] == '?' then Some(t) else None
  }

  predicate IsAsciiLetter(c: char) {
    'A' <= c <= 'Z' || 'a' <= c <= 'z'
  }

  /** An option line: one letter and a dot; the option is the rest, stripped. */
  function OptionText(line: string): Option<string> {
    if |line| >= 2 && IsAsciiLetter(line[0]) && line[1] == '.' then Some(Strip(LStrip(line[2..]))) else None
  }

  /** The answer marker, matched without regard to case. */
  const AnswerMark := "answer:"

  /** An answer line: the marker in any case; the answer is the rest, stripped. */
  function AnswerText(line: string): Option<string> {
    if |line| >= |AnswerMark| && Lower(line[..|AnswerMark|]) == AnswerMark then Some(Strip(LStrip(line[|AnswerMark|..])))
    else None
  }

  /** A question is read from exactly the lines of its form. */
  lemma QuestionTextSpec(line: string, q: string)
    requires QuestionText(line) == Some(q)
    ensures |q| > 0 && q[|q| - 1] == '?' && !IsSpace(q[0])
    ensures LeadingDigits(line) < |line| && IsDigits(line[..LeadingDigits(line)]) && line[LeadingDigits(line)] == '.'
    ensures |q| < |line| - LeadingDigits(line)
    ensures AllSpace(line[LeadingDigits(line) + 1..|line| - |q|]) && line[|line| - |q|..] == q
  {
    QuestionHead(line, q);
    LStripTail(line, LeadingDigits(line) + 1, q);
  }

  /** The number and the dot in front of a question, and the question as the
      rest of the line without its leading white space. */
  lemma QuestionHead(line: string, q: string)
    requires QuestionText(line) == Some(q)
    ensures LeadingDigits(line) < |line| && IsDigits(line[..LeadingDigits(line)]) && line[LeadingDigits(line)] == '.'
    ensures q == LStrip(line[LeadingDigits(line) + 1..]) && |q| > 0 && q[|q| - 1] == '?'
  {
    DigitsPrefix(line, LeadingDigits(line));
  }

  lemma DigitsPrefix(s: string, k: nat)
    requires 0 < k == LeadingDigits(s)
    ensures IsDigits(s[..k])
  {
    DigitsEndSpec(s, 0);
    forall j | 0 <= j < k ensures IsDigit(s[..k][j]) {
      assert s[..k][j] == s[j];
    }
  }

  /** What `lstrip` keeps of a line's tail is a suffix of the line, and only
      white space lies between the start of the tail and it. */
  lemma LStripTail(line: string, p: nat, q: string)
    requires p <= |line| && q == LStrip(line[p..])
    ensures |q| <= |line| - p && (q == [] || !IsSpace(q[0]))
    ensures AllSpace(line[p..|line| - |q|]) && line[|line| - |q|..] == q
  {
    var rest := line[p..];
    LStripSpec(rest);
    var d := |rest| - |q|;
    assert line[|line| - |q|..] == q by {
      assert line[p + d..] == rest[d..];
    }
    assert AllSpace(line[p..|line| - |q|]) by {
      var w := line[p..|line| - |q|];
      forall j | 0 <= j < |w| ensures IsSpace(w[j]) {
        assert w[j] == rest[..d][j];
      }
    }
  }

  /** Conversely, a number, a dot, white space and a question give that
      question. */
  lemma QuestionTextOf(d: string, w: string, q: string)
    requires IsDigits(d) && AllSpace(w)
    requires |q| > 0 && !IsSpace(q[0]) && q[|q| - 1] == '?'
    ensures QuestionText(d + "." + w + q) == Some(q)
  {
    var line := d + "." + w + q;
    LeadingDigitsOf(d, "." + w + q);
    assert line == d + ("." + w + q);
    assert line[|d|] == '.';
    assert line[|d| + 1..] == w + q;
    LStripSpaces(w, q);
  }

  lemma LeadingDigitsOf(d: string, rest: string)
    requires forall j :: 0 <= j < |d| ==> IsDigit(d[j])
    requires rest == [] || !IsDigit(rest[0])
    ensures LeadingDigits(d + rest) == |d|
  {
    DigitsEndOf(d, rest, 0);
  }

  lemma {:induction false} DigitsEndOf(d: string, rest: string, i: nat)
    requires i <= |d|
    requires forall j :: i <= j < |d| ==> IsDigit(d[j])
    requires rest == [] || !IsDigit(rest[0])
    ensures DigitsEnd(d + rest, i) == |d|
    decreases |d| - i
  {
    if i < |d| {
      assert (d + rest)[i] == d[i];
      DigitsEndOf(d, rest, i + 1);
    } else if rest != [] {
      assert (d + rest)[i] == rest[0];
    }
  }

  /** The answer marker is recognised in any mix of case. */
  lemma AnswerAnyCase(mark: string, rest: string)
    requires Lower(mark) == AnswerMark
    ensures AnswerText(mark + rest) == Some(Strip(LStrip(rest)))
  {
    assert (mark + rest)[..|AnswerMark|] == mark;
    assert (mark + rest)[|AnswerMark|..] == rest;
  }

  /** No line is both an option and an answer, and no question line is
      either. */
  lemma LineKinds(line: string)
    ensures !(OptionText(line).Some? && AnswerText(line).Some?)
    ensures QuestionText(line).Some? ==> OptionText(line).None? && AnswerText(line).None?
  {
    if |line| >= |AnswerMark| && Lower(line[..|AnswerMark|]) == AnswerMark {
      assert LowerChar(line[1]) == Lower(line[..|AnswerMark|])[1] == 'n';
      assert LowerChar(line[0]) == Lower(line[..|AnswerMark|])[0] == 'a';
    }
  }

  // ---------------------------------------------------------------------
  // The option scan
  // ---------------------------------------------------------------------

  /** The scan after a question from line `i`: the options up to the first
      answer line, and that answer with its line number; no answer when the
      lines run out. Question lines do not stop the scan. */
  function Scan(lines: seq<string>, i: nat): (r: (seq<string>, Option<(string, nat)>))
    ensures r.1.Some? ==> i <= r.1.value.1 < |lines|
    decreases |lines| - i
  {
    if i >= |lines| then ([], None)
    else
      var o := OptionText(lines[i]);
      var here := if o.Some? then [o.value] else [];
      var a := AnswerText(lines[i]);
      if a.Some? then (here, Some((a.value, i)))
      else
        var rest := Scan(lines, i + 1);
        (here + rest.0, rest.1)
  }

  /** The scan stops at the first answer line after `i`, and runs to the end
      when there is none. */
  lemma {:induction false} ScanStops(lines: seq<string>, i: nat)
    ensures Scan(lines, i).1.Some? ==>
      AnswerText(lines[Scan(lines, i).1.value.1]) == Some(Scan(lines, i).1.value.0)
    ensures Scan(lines, i).1.Some? ==>
      forall j :: i <= j < Scan(lines, i).1.value.1 ==> AnswerText(lines[j]).None?
    ensures Scan(lines, i).1.None? ==> forall j :: i <= j < |lines| ==> AnswerText(lines[j]).None?
    decreases |lines| - i
  {
    if i < |lines| && AnswerText(lines[i]).None? {
      ScanStops(lines, i + 1);
    }
  }

  /** Every option of the scan is the option of one of the lines it read. */
  lemma {:induction false} ScanOptionsRead(lines: seq<string>, i: nat)
    ensures forall o :: o in Scan(lines, i).0 ==> exists j :: i <= j < |lines| && OptionText(lines[j]) == Some(o)
    decreases |lines| - i
  {
    if i < |lines| && AnswerText(lines[i]).None? {
      ScanOptionsRead(lines, i + 1);
    }
  }

  // ---------------------------------------------------------------------
  // Blocks
  // ---------------------------------------------------------------------

  /** The options kept as distractors: those that differ from the answer once
      trimmed and lower-cased. */
  function Kept(options: seq<string>, answer: string): seq<string> {
    if options == [] then []
    else
      var o := options[|options| - 1];
      Kept(options[..|options| - 1], answer) + (if Lower(Strip(o)) != Lower(Strip(answer)) then [o] else [])
  }

  /** Exactly the options different from the answer are kept, so the answer
      never reappears as a distractor. */
  lemma {:induction false} KeptSpec(options: seq<string>, answer: string)
    ensures forall o :: o in Kept(options, answer) <==> o in options && Lower(Strip(o)) != Lower(Strip(answer))
    ensures |Kept(options, answer)| <= |options|
  {
    if options != [] {
      var init := options[..|options| - 1];
      KeptSpec(init, answer);
      assert options == init + [options[|options| - 1]];
    }
  }

  /** The distractor text: ` ~` before each kept option. */
  function Tildes(opts: seq<string>): string {
    if opts == [] then "" else Tildes(opts[..|opts| - 1]) + " ~" + opts[|opts| - 1]
  }

  /** The block of one question. */
  function VocabBlock(sNo: nat, question: string, answer: string, options: seq<string>): string {
    "::" + NatToString(sNo) + ":: " + question + " {=" + answer + Tildes(Kept(options, answer)) + "}\n\n"
  }

  /** A parsed question: its number, its text, its answer and its options. */
  datatype Question = Question(no: nat, text: string, answer: string, options: seq<string>)

  /** The block written for a parsed question. */
  function Render(b: Question): string {
    VocabBlock(b.no, b.text, b.answer, b.options)
  }

  /** The blocks written for parsed questions, in order. */
  function RenderAll(bs: seq<Question>): seq<string>
  {
    seq(|bs|, k requires 0 <= k < |bs| => Render(bs[k]))
  }

  lemma RenderAllConcat(a: seq<Question>, b: seq<Question>)
    ensures RenderAll(a + b) == RenderAll(a) + RenderAll(b)
  {
    assert forall k :: 0 <= k < |a + b| ==> (a + b)[k] == if k < |a| then a[k] else b[k - |a|];
  }

  /** What the line at `i` gives: nothing when it is not a question, the end
      of the parse when no answer follows it, and otherwise the question with
      the answer, the options and the line of the answer that follow it. */
  datatype Step = Skip | Stop | Emit(question: string, answer: string, options: seq<string>, last: nat)

  function StepAt(lines: seq<string>, i: nat): (r: Step)
    requires i < |lines|
    ensures r.Emit? ==> i < r.last < |lines|
  {
    var q := QuestionText(lines[i]);
    if q.None? then Skip
    else
      var s := Scan(lines, i + 1);
      if s.1.None? then Stop else Emit(q.value, s.1.value.0, s.0, s.1.value.1)
  }

  /** Steps whose answer lines lie ahead of them, within the steps. */
  predicate ForwardSteps(steps: seq<Step>) {
    forall i :: 0 <= i < |steps| && steps[i].Emit? ==> i < steps[i].last < |steps|
  }

  /** The step of every line. */
  function Steps(lines: seq<string>): (r: seq<Step>)
    ensures |r| == |lines| && ForwardSteps(r)
  {
    seq(|lines|, i requires 0 <= i < |lines| => StepAt(lines, i))
  }

  /** The questions of the steps from `i` on, numbered from `sNo`: a question
      with an answer is taken and the parse goes on after the answer line; a
      question without one ends it. */
  function Blocks(steps: seq<Step>, i: nat, sNo: nat): seq<Question>
    requires ForwardSteps(steps)
    decreases |steps| - i
  {
    if i >= |steps| then []
    else
      match steps[i]
      case Skip => Blocks(steps, i + 1, sNo)
      case Stop => []
      case Emit(q, a, opts, last) => [Question(sNo, q, a, opts)] + Blocks(steps, last + 1, sNo + 1)
  }

  /** The questions from line `i` on, numbered from `sNo`. */
  function Parse(lines: seq<string>, i: nat, sNo: nat): seq<Question> {
    Blocks(Steps(lines), i, sNo)
  }

  /** The blocks of a file. */
  function VocabBlocks(raw: seq<string>): seq<string> {
    RenderAll(Parse(CleanLines(raw), 0, 0))
  }

  /** Questions are numbered one after the other from the first number, in
      input order. */
  lemma {:induction false} BlocksNumbered(steps: seq<Step>, i: nat, sNo: nat)
    requires ForwardSteps(steps)
    ensures forall k :: 0 <= k < |Blocks(steps, i, sNo)| ==> Blocks(steps, i, sNo)[k].no == sNo + k
    decreases |steps| - i
  {
    if i < |steps| {
      match steps[i]
      case Skip => BlocksNumbered(steps, i + 1, sNo);
      case Stop =>
      case Emit(q, a, opts, last) =>
        BlocksNumbered(steps, last + 1, sNo + 1);
        var rest := Blocks(steps, last + 1, sNo + 1);
        forall k | 0 < k < 1 + |rest| ensures ([Question(sNo, q, a, opts)] + rest)[k].no == sNo + k {
          assert ([Question(sNo, q, a, opts)] + rest)[k] == rest[k - 1];
        }
    }
  }

  /** The heading of the block numbered `n`. */
  function Heading(n: nat): string {
    "::" + NatToString(n) + ":: "
  }

  /** A block starts with the heading of its number. */
  lemma BlockHeading(b: Question)
    ensures Heading(b.no) <= Render(b)
  {
    var tail := b.text + " {=" + b.answer + Tildes(Kept(b.options, b.answer)) + "}\n\n";
    assert Render(b) == Heading(b.no) + tail;
  }

  /** The blocks of a file are headed `::0::`, `::1::`, ... in order. */
  lemma VocabBlocksNumbered(raw: seq<string>)
    ensures forall k :: 0 <= k < |VocabBlocks(raw)| ==> Heading(k) <= VocabBlocks(raw)[k]
  {
    var bs := Parse(CleanLines(raw), 0, 0);
    BlocksNumbered(Steps(CleanLines(raw)), 0, 0);
    forall k | 0 <= k < |bs| ensures Heading(k) <= VocabBlocks(raw)[k] {
      BlockHeading(bs[k]);
    }
  }

  /** Every question is taken from a question line followed by its options
      and its answer line. */
  lemma {:induction false} BlocksSources(steps: seq<Step>, i: nat, sNo: nat)
    requires ForwardSteps(steps)
    ensures forall b :: b in Blocks(steps, i, sNo) ==>
      exists p :: i <= p < |steps| && steps[p].Emit? && b.text == steps[p].question
        && b.answer == steps[p].answer && b.options == steps[p].options
    decreases |steps| - i
  {
    if i < |steps| {
      match steps[i]
      case Skip => BlocksSources(steps, i + 1, sNo);
      case Stop =>
      case Emit(q, a, opts, last) => BlocksSources(steps, last + 1, sNo + 1);
    }
  }

  /** There are never more questions than lines. */
  lemma {:induction false} BlocksLength(steps: seq<Step>, i: nat, sNo: nat)
    requires ForwardSteps(steps) && i <= |steps|
    ensures |Blocks(steps, i, sNo)| <= |steps| - i
    decreases |steps| - i
  {
    if i < |steps| {
      match steps[i]
      case Skip => BlocksLength(steps, i + 1, sNo);
      case Stop =>
      case Emit(q, a, opts, last) => BlocksLength(steps, last + 1, sNo + 1);
    }
  }

  /** The steps are those of the lines: a line gives a question exactly when
      it is a question line with an answer line after it. */
  lemma StepsOfLines(lines: seq<string>, p: nat)
    requires p < |lines|
    ensures Steps(lines)[p].Emit? <==> QuestionText(lines[p]).Some? && Scan(lines, p + 1).1.Some?
    ensures Steps(lines)[p].Emit? ==> (Steps(lines)[p] ==
      Emit(QuestionText(lines[p]).value, Scan(lines, p + 1).1.value.0, Scan(lines, p + 1).0, Scan(lines, p + 1).1.value.1))
  {
  }

  lemma ParseEmits(lines: seq<string>, i: nat, sNo: nat, q: string, a: string, opts: seq<string>, last: nat)
    requires i < |lines| && StepAt(lines, i) == Emit(q, a, opts, last)
    ensures Parse(lines, i, sNo) == [Question(sNo, q, a, opts)] + Parse(lines, last + 1, sNo + 1)
  {
    assert Steps(lines)[i] == StepAt(lines, i);
  }

  lemma ParseStops(lines: seq<string>, i: nat, sNo: nat)
    requires i < |lines| && StepAt(lines, i) == Stop
    ensures Parse(lines, i, sNo) == []
  {
    assert Steps(lines)[i] == StepAt(lines, i);
  }

  lemma ParseSkips(lines: seq<string>, i: nat, sNo: nat)
    requires i < |lines| && QuestionText(lines[i]).None?
    ensures Parse(lines, i, sNo) == Parse(lines, i + 1, sNo)
  {
    assert Steps(lines)[i] == StepAt(lines, i) == Skip;
  }

  /** A question without an answer after it ends the parse: nothing after it
      gives a block. */
  lemma UnansweredEnds(lines: seq<string>, i: nat, sNo: nat)
    requires i < |lines| && QuestionText(lines[i]).Some?
    requires forall j :: i < j < |lines| ==> AnswerText(lines[j]).None?
    ensures Parse(lines, i, sNo) == []
  {
    ScanStops(lines, i + 1);
    ParseStops(lines, i, sNo);
  }

  // ---------------------------------------------------------------------
  // process_mcq_file
  // ---------------------------------------------------------------------

  /** Building the block string of one question. */
  method BuildBlock(sNo: nat, question: string, answer: string, mcq: seq<string>) returns (block: string)
    ensures block == VocabBlock(sNo, question, answer, mcq)
  {
    block := "::";
    block := block + NatToString(sNo);
    block := block + ":: ";
    block := block + question;
    block := block + " {=";
    block := block + answer;
    block := AddDistractors(block, answer, mcq);
    block := block + "}\n\n";
  }

  /** The option loop of the block: ` ~` and the option for each option that
      is not the answer. */
  method AddDistractors(head: string, answer: string, mcq: seq<string>) returns (block: string)
    ensures block == head + Tildes(Kept(mcq, answer))
  {
    block := head;
    for k := 0 to |mcq|
      invariant block == head + Tildes(Kept(mcq[..k], answer))
    {
      var opt := mcq[k];
      ghost var kept := Kept(mcq[..k], answer);
      KeptStep(mcq, k, answer, kept);
      if Lower(Strip(opt)) != Lower(Strip(answer)) {
        assert block + " ~" + opt == head + Tildes(Kept(mcq[..k + 1], answer)) by {
          assert Kept(mcq[..k + 1], answer) == kept + [opt];
          TildesSnoc(kept, opt);
          ghost var t := Tildes(kept);
          assert block == head + t;
          AppendAssoc(head, t, " ~");
          AppendAssoc(head, t + " ~", opt);
        }
        block := block + " ~" + opt;
      }
    }
    assert mcq[..|mcq|] == mcq;
  }

  /** One more option either joins the kept ones or is dropped. */
  lemma KeptStep(mcq: seq<string>, k: nat, answer: string, kept: seq<string>)
    requires k < |mcq| && kept == Kept(mcq[..k], answer)
    ensures Kept(mcq[..k + 1], answer)
      == if Lower(Strip(mcq[k])) != Lower(Strip(answer)) then kept + [mcq[k]] else kept
  {
    assert mcq[..k + 1][..k] == mcq[..k] && mcq[..k + 1][k] == mcq[k];
  }

  lemma TildesSnoc(kept: seq<string>, opt: string)
    ensures Tildes(kept + [opt]) == Tildes(kept) + " ~" + opt
  {
    assert (kept + [opt])[..|kept|] == kept;
  }

  /** The option loop after a question line at `start - 1`: it gathers the
      options and stops at the first answer line, or at the end. */
  method ScanOptions(lines: seq<string>, start: nat) returns (mcq: seq<string>, rans: seq<string>, i: nat)
    requires start <= |lines|
    ensures |rans| <= 1
    ensures mcq == Scan(lines, start).0
    ensures rans == [] ==> Scan(lines, start).1.None? && i == |lines|
    ensures rans != [] ==> Scan(lines, start).1 == Some((rans[0], i))
  {
    mcq := [];
    rans := [];
    i := start;
    assert [] + Scan(lines, i).0 == Scan(lines, i).0;
    while i < |lines|
      invariant start <= i <= |lines|
      invariant Scan(lines, start) == (mcq + Scan(lines, i).0, Scan(lines, i).1)
    {
      var optLine := lines[i];
      var optMatch := OptionText(optLine);
      ghost var before := mcq;
      ghost var here := if optMatch.Some? then [optMatch.value] else [];
      if optMatch.Some? {
        mcq := mcq + [optMatch.value];
      }
      assert mcq == before + here;
      var ansMatch := AnswerText(optLine);
      if ansMatch.Some? {
        rans := rans + [ansMatch.value];
        assert Scan(lines, i) == (here, Some((ansMatch.value, i)));
        return;
      }
      AppendAssoc(before, here, Scan(lines, i + 1).0);
      i := i + 1;
    }
  }

  /** The handling of a question line at `i`: its options are scanned and,
      when an answer follows, its block is added and the number advanced. The
      scan ends at the answer line, or at the end of the lines. */
  method TakeQuestion(lines: seq<string>, i: nat, question: string, list: seq<string>, sNo: nat)
    returns (list': seq<string>, sNo': nat, last: nat)
    requires i < |lines| && QuestionText(lines[i]) == Some(question)
    requires sNo == |list|
    ensures i < last <= |lines| && sNo' == |list'|
    ensures list' + RenderAll(Parse(lines, last + 1, sNo')) == list + RenderAll(Parse(lines, i, sNo))
  {
    var mcq, rans;
    mcq, rans, last := ScanOptions(lines, i + 1);
    list', sNo' := list, sNo;
    if |rans| > 0 {
      var block := BuildBlock(sNo, question, rans[0], mcq);
      ghost var rest := Parse(lines, last + 1, sNo + 1);
      assert RenderAll(Parse(lines, i, sNo)) == [block] + RenderAll(rest) by {
        assert StepAt(lines, i) == Emit(question, rans[0], mcq, last);
        ParseEmits(lines, i, sNo, question, rans[0], mcq, last);
        RenderAllConcat([Question(sNo, question, rans[0], mcq)], rest);
      }
      AppendAssoc(list, [block], RenderAll(rest));
      list' := list + [block];
      sNo' := sNo + 1;
    } else {
      assert Parse(lines, i, sNo) == [] by {
        assert StepAt(lines, i) == Stop;
        ParseStops(lines, i, sNo);
      }
      assert Parse(lines, last + 1, sNo) == [];
      assert list + [] == list;
    }
  }

  /** `process_mcq_file` over the lines of the input file: the blocks written
      and the count printed. */
  method ProcessMcqFile(raw: seq<string>) returns (questionMoodleList: seq<string>, sNo: nat)
    ensures questionMoodleList == VocabBlocks(raw)
    ensures sNo == |questionMoodleList|
  {
    var lines := CleanLines(raw);
    sNo := 0;
    questionMoodleList := [];
    var i := 0;
    while i < |lines|
      invariant i <= |lines| + 1
      invariant questionMoodleList + RenderAll(Parse(lines, i, sNo)) == RenderAll(Parse(lines, 0, 0))
      invariant sNo == |questionMoodleList|
      decreases |lines| + 1 - i
    {
      var line := lines[i];
      var qMatch := QuestionText(line);
      if qMatch.Some? {
        questionMoodleList, sNo, i := TakeQuestion(lines, i, qMatch.value, questionMoodleList, sNo);
      } else {
        ParseSkips(lines, i, sNo);
      }
      i := i + 1;
    }
    assert Parse(lines, i, sNo) == [];
    assert questionMoodleList + [] == questionMoodleList;
  }
}
