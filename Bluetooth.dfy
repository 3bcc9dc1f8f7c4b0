/// The adapter switcher: the parser of the `hciconfig` listing, the check of
/// the typed menu choice, the choice of the adapters to take down, and the
/// guard that offers the switch only when there is something to choose.
/// The commands run (`hciconfig`, `udevadm`, `reboot`) are left out; the
/// listing arrives as its lines.
module Bluetooth {
  import opened Wrappers
  import opened Strings

  /** An adapter as the parser records it: its name and, once a
      `BD Address` line has been seen for it, its address. */
  datatype Adapter = Adapter(name: string, mac: Option<string>)

  // ---------------------------------------------------------------------
  // The address pattern `BD Address:\s+([0-9A-F:]+)`
  // ---------------------------------------------------------------------

  const MacLabel := "BD Address:"

  /** A character of the class `[0-9A-F:]`. */
  predicate IsMacChar(c: char) {
    ('0' <= c <= '9') || ('A' <= c <= 'F') || c == ':'
  }

  /** The end of the longest run of `inClass` characters starting at `i`. */
  function RunEnd(s: string, i: nat, inClass: char -> bool): (j: nat)
    requires i <= |s|
    ensures i <= j <= |s| && (j == |s| || !inClass(s[j]))
    ensures forall k :: i <= k < j ==> inClass(s[k])
    decreases |s| - i
  {
    if i < |s| && inClass(s[i]) then RunEnd(s, i + 1, inClass) else i
  }

  /** `re.search` from position `p` on: the first place where the label is
      followed by white space and then by address characters; the captured
      group is the whole run of address characters. */
  function MacFrom(line: string, p: nat): Option<string>
    decreases |line| - p
  {
    if p + |MacLabel| > |line| then None
    else if StartsAt(line, p, MacLabel) then
      var q := p + |MacLabel|;
      var w := RunEnd(line, q, IsSpace);
      var e := RunEnd(line, w, IsMacChar);
      if q < w && w < e then Some(line[w..e]) else MacFrom(line, p + 1)
    else MacFrom(line, p + 1)
  }

  /** The group the address pattern captures in `line`, if it matches. */
  function MacOf(line: string): Option<string> {
    MacFrom(line, 0)
  }

  /** Starting positions without the label are passed over. */
  lemma {:induction false} MacFromSkip(line: string, p: nat, k: nat)
    requires p <= k && forall i :: p <= i < k ==> !StartsAt(line, i, MacLabel)
    ensures MacFrom(line, p) == MacFrom(line, k)
    decreases k - p
  {
    if p < k {
      MacFromSkip(line, p + 1, k);
    }
  }

  /** A captured address is a non-empty run of address characters. */
  lemma {:induction false} MacFromSpec(line: string, p: nat)
    ensures MacFrom(line, p).Some? ==>
      var m := MacFrom(line, p).value;
      m != [] && forall k :: 0 <= k < |m| ==> IsMacChar(m[k])
    decreases |line| - p
  {
    if p + |MacLabel| <= |line| {
      MacFromSpec(line, p + 1);
    }
  }

  /** A run that ends where its class does is the run `RunEnd` finds. */
  lemma RunEndIs(s: string, i: nat, j: nat, inClass: char -> bool)
    requires i <= j <= |s| && (j == |s| || !inClass(s[j]))
    requires forall k :: i <= k < j ==> inClass(s[k])
    ensures RunEnd(s, i, inClass) == j
  {
  }

  /** A suffix that is `a + b` starts with `a`, and `b` follows it. */
  lemma SuffixSplit(s: string, i: nat, a: string, b: string)
    requires i <= |s| && s[i..] == a + b
    ensures i + |a| <= |s| && s[i..i + |a|] == a && s[i + |a|..] == b
  {
    assert s[i..i + |a|] == s[i..][..|a|] == (a + b)[..|a|];
    assert s[i + |a|..] == s[i..][|a|..] == (a + b)[|a|..];
  }

  /** At a label followed by white space and an address run, the search
      captures that run. */
  lemma {:induction false} MacAtLabel(line: string, p: nat, ws: string, m: string, rest: string)
    requires ws != [] && AllSpace(ws)
    requires m != [] && forall k :: 0 <= k < |m| ==> IsMacChar(m[k])
    requires rest == [] || !IsMacChar(rest[0])
    requires p + |MacLabel| <= |line| && line[p..] == MacLabel + (ws + (m + rest))
    ensures MacFrom(line, p) == Some(m)
  {
    var q := p + |MacLabel|;
    var w := q + |ws|;
    var e := w + |m|;
    SuffixSplit(line, p, MacLabel, ws + (m + rest));
    SuffixSplit(line, q, ws, m + rest);
    SuffixSplit(line, w, m, rest);
    forall k | q <= k < w ensures IsSpace(line[k]) {
      assert line[k] == line[q..][k - q] == ws[k - q];
    }
    assert line[w] == line[w..][0] == m[0];
    RunEndIs(line, q, w, IsSpace);
    forall k | w <= k < e ensures IsMacChar(line[k]) {
      assert line[k] == line[w..][k - w] == m[k - w];
    }
    assert e < |line| ==> line[e] == line[e..][0] == rest[0];
    RunEndIs(line, w, e, IsMacChar);
    SuffixSplit(line, w, m, rest);
    assert line[w..e] == m;
  }

  /** The pattern captures the address of a line laid out as `hciconfig`
      prints it: the label, white space, the address, and then text that does
      not continue the address. */
  lemma MacOfLine(pre: string, ws: string, m: string, rest: string)
    requires ws != [] && AllSpace(ws)
    requires m != [] && forall k :: 0 <= k < |m| ==> IsMacChar(m[k])
    requires rest == [] || !IsMacChar(rest[0])
    requires forall i :: 0 <= i < |pre| ==> !StartsAt(pre + MacLabel + ws + m + rest, i, MacLabel)
    ensures MacOf(pre + MacLabel + ws + m + rest) == Some(m)
  {
    var line := pre + MacLabel + ws + m + rest;
    assert line == pre + (MacLabel + (ws + (m + rest)));
    assert line[|pre|..] == MacLabel + (ws + (m + rest));
    MacFromSkip(line, 0, |pre|);
    MacAtLabel(line, |pre|, ws, m, rest);
  }

  // ---------------------------------------------------------------------
  // The listing parser
  // ---------------------------------------------------------------------

  /** `line.startswith("hci")`. */
  predicate IsHciLine(line: string) {
    |line| >= 3 && line[..3] == "hci"
  }

  /** `line.split(":")[0]`: the text before the first colon, that is the
      longest prefix without one (the whole line when there is none). */
  function NameOf(line: string): (r: string)
    ensures r <= line && !HasChar(r, ':')
    ensures |r| == |line| || line[|r|] == ':'
  {
    var i := Find(line, ":", 0);
    NoCharBefore(line, i);
    Split(line, ":")[0]
  }

  /** Before the first colon, or in a line without one, there is no colon. */
  lemma NoCharBefore(line: string, i: int)
    requires i == Find(line, ":", 0)
    ensures !HasChar(if i < 0 then line else line[..i], ':')
  {
    var n := if i < 0 then |line| else i;
    forall k | 0 <= k < n ensures line[k] != ':' {
      assert !StartsAt(line, k, ":");
      assert line[k..k + 1] == [line[k]];
    }
  }

  /** One line of the loop: an `hci` line starts a new adapter; a line with
      `BD Address` whose address matches sets the latest adapter's address;
      other lines, and address lines before any adapter, change nothing. */
  function Step(adapters: seq<Adapter>, line: string): seq<Adapter> {
    if IsHciLine(line) then adapters + [Adapter(NameOf(line), None)]
    else if Contains(line, "BD Address") && adapters != [] then
      match MacOf(line)
      case None => adapters
      case Some(m) => adapters[|adapters| - 1 := adapters[|adapters| - 1].(mac := Some(m))]
    else adapters
  }

  /** The loop over the lines from a given list of adapters. */
  function Run(adapters: seq<Adapter>, lines: seq<string>): seq<Adapter> {
    if lines == [] then adapters else Step(Run(adapters, lines[..|lines| - 1]), lines[|lines| - 1])
  }

  /** The adapters `get_adapters` finds, without their vendors. */
  function Adapters(lines: seq<string>): seq<Adapter> {
    Run([], lines)
  }

  /** The parsing loop of `get_adapters`, with `current` the adapter last
      appended. */
  method GetAdapters(lines: seq<string>) returns (adapters: seq<Adapter>)
    ensures adapters == Adapters(lines)
  {
    adapters := [];
    var hasCurrent := false;
    for k := 0 to |lines|
      invariant adapters == Run([], lines[..k])
      invariant hasCurrent <==> adapters != []
    {
      var line := lines[k];
      assert lines[..k + 1][..k] == lines[..k];
      if |line| >= 3 && line[..3] == "hci" {
        var name := Split(line, ":")[0];
        adapters := adapters + [Adapter(name, None)];
        hasCurrent := true;
      } else if Contains(line, "BD Address") && hasCurrent {
        var mac := MacOf(line);
        if mac.Some? {
          var current := adapters[|adapters| - 1];
          adapters := adapters[|adapters| - 1 := current.(mac := mac)];
        }
      }
    }
    assert lines[..|lines|] == lines;
  }

  /** The names of adapters, in order. */
  function Names(adapters: seq<Adapter>): seq<string>
  {
    seq(|adapters|, k requires 0 <= k < |adapters| => adapters[k].name)
  }

  /** The names of the `hci` lines, in order. */
  function HciNames(lines: seq<string>): seq<string> {
    if lines == [] then []
    else
      var last := lines[|lines| - 1];
      HciNames(lines[..|lines| - 1]) + (if IsHciLine(last) then [NameOf(last)] else [])
  }

  /** There is one adapter per `hci` line, named by it, in the order of the
      lines; address lines never add, drop or rename an adapter. */
  lemma {:induction false} AdapterNames(lines: seq<string>)
    ensures Names(Adapters(lines)) == HciNames(lines)
  {
    if lines != [] {
      var init := lines[..|lines| - 1];
      var last := lines[|lines| - 1];
      AdapterNames(init);
      var a := Adapters(init);
      if IsHciLine(last) {
        assert Names(a + [Adapter(NameOf(last), None)]) == Names(a) + [NameOf(last)];
      } else {
        assert Names(Step(a, last)) == Names(a);
        assert HciNames(lines) == HciNames(init) + [];
      }
    }
  }

  /** The loop over two runs of lines is the loop over the second run from
      where the first left off. */
  lemma {:induction false} RunConcat(a: seq<Adapter>, p: seq<string>, r: seq<string>)
    ensures Run(a, p + r) == Run(Run(a, p), r)
  {
    if r == [] {
      assert p + r == p;
    } else {
      var init := r[..|r| - 1];
      assert (p + r)[..|p + r| - 1] == p + init;
      assert (p + r)[|p + r| - 1] == r[|r| - 1];
      RunConcat(a, p, init);
    }
  }

  /** Lines without an `hci` line find no adapter. */
  lemma {:induction false} NoHciNoAdapter(p: seq<string>)
    requires forall k :: 0 <= k < |p| ==> !IsHciLine(p[k])
    ensures Adapters(p) == []
  {
    if p != [] {
      NoHciNoAdapter(p[..|p| - 1]);
    }
  }

  /** Address lines before the first `hci` line are ignored. */
  lemma LeadingLinesIgnored(p: seq<string>, r: seq<string>)
    requires forall k :: 0 <= k < |p| ==> !IsHciLine(p[k])
    ensures Adapters(p + r) == Adapters(r)
  {
    NoHciNoAdapter(p);
    RunConcat([], p, r);
  }

  /** A later matching address line overwrites the address an earlier one
      set on the same adapter. */
  lemma LaterMacWins(a: seq<Adapter>, l1: string, l2: string)
    requires a != []
    requires !IsHciLine(l1) && Contains(l1, "BD Address") && MacOf(l1).Some?
    requires !IsHciLine(l2) && Contains(l2, "BD Address") && MacOf(l2).Some?
    ensures Step(Step(a, l1), l2) == Step(a, l2)
  {
    var b := Step(a, l1);
    assert |b| == |a| && b[..|b| - 1] == a[..|a| - 1];
    assert Step(b, l2)[..|a| - 1] == Step(a, l2)[..|a| - 1];
  }

  // ---------------------------------------------------------------------
  // The menu, the switch and the guard
  // ---------------------------------------------------------------------

  /** The check in `show_menu`: the typed text must be digits naming one of
      the `count` adapters; the result is the 0-based index chosen. */
  function Selection(choice: string, count: nat): (r: Option<nat>)
    ensures r.Some? ==> r.value < count
  {
    if IsDigits(choice) && 1 <= DigitsValue(choice) <= count then Some(DigitsValue(choice) - 1) else None
  }

  /** Typing the number shown beside an adapter selects that adapter, and
      text that is not all digits selects none. */
  lemma SelectNumber(k: nat, count: nat, other: string)
    requires 1 <= k <= count
    requires !IsDigits(other)
    ensures Selection(NatToString(k), count) == Some(k - 1)
    ensures Selection(other, count) == None
  {
    NatToStringValue(k);
  }

  /** `show_menu`: the adapter chosen, or none for an invalid entry (where
      the program exits). */
  method ShowMenu(adapters: seq<Adapter>, choice: string) returns (keep: Option<Adapter>)
    ensures keep.Some? <==> Selection(choice, |adapters|).Some?
    ensures keep.Some? ==> keep.value == adapters[Selection(choice, |adapters|).value]
  {
    if !IsDigits(choice) || !(1 <= DigitsValue(choice) <= |adapters|) {
      return None;
    }
    return Some(adapters[DigitsValue(choice) - 1]);
  }

  /** The names taken down by `apply_choice`, in order. */
  function Disabled(adapters: seq<Adapter>, keepName: string): seq<string> {
    if adapters == [] then []
    else
      var last := adapters[|adapters| - 1];
      Disabled(adapters[..|adapters| - 1], keepName) + (if last.name != keepName then [last.name] else [])
  }

  /** Exactly the adapters named otherwise than the kept one are taken down. */
  lemma {:induction false} DisabledSpec(adapters: seq<Adapter>, keepName: string)
    ensures forall n :: n in Disabled(adapters, keepName) <==>
      n != keepName && exists k :: 0 <= k < |adapters| && adapters[k].name == n
  {
    if adapters != [] {
      var init := adapters[..|adapters| - 1];
      DisabledSpec(init, keepName);
      assert forall k :: 0 <= k < |init| ==> init[k] == adapters[k];
      forall n | n != keepName && exists k :: 0 <= k < |adapters| && adapters[k].name == n
        ensures n in Disabled(adapters, keepName)
      {
        var k :| 0 <= k < |adapters| && adapters[k].name == n;
        if k < |init| {
          assert init[k].name == n;
        }
      }
    }
  }

  /** One command per other adapter: as many commands as adapters less those
      sharing the kept name, so one fewer when the kept name is unique. */
  lemma {:induction false} DisabledCount(adapters: seq<Adapter>, keepName: string)
    ensures |Disabled(adapters, keepName)| + |Named(adapters, keepName)| == |adapters|
  {
    if adapters != [] {
      DisabledCount(adapters[..|adapters| - 1], keepName);
    }
  }

  /** The adapters that carry a name, in order. */
  function Named(adapters: seq<Adapter>, name: string): seq<Adapter> {
    if adapters == [] then []
    else
      var last := adapters[|adapters| - 1];
      Named(adapters[..|adapters| - 1], name) + (if last.name == name then [last] else [])
  }

  /** The loop of `apply_choice`: one `hciconfig <name> down` per other
      adapter. */
  method ApplyChoice(adapters: seq<Adapter>, keep: Adapter) returns (disabled: seq<string>)
    ensures disabled == Disabled(adapters, keep.name)
  {
    disabled := [];
    for k := 0 to |adapters|
      invariant disabled == Disabled(adapters[..k], keep.name)
    {
      assert adapters[..k + 1][..k] == adapters[..k];
      if adapters[k].name != keep.name {
        disabled := disabled + [adapters[k].name];
      }
    }
    assert adapters[..|adapters|] == adapters;
  }

  /** How a run of the switcher ends. */
  datatype Outcome =
    | NothingToSwitch
    | InvalidSelection
    | Switched(kept: string, disabled: seq<string>)

  /** `main` after the root check and before the reboot prompt. */
  function Switcher(lines: seq<string>, choice: string): Outcome {
    var adapters := Adapters(lines);
    if |adapters| < 2 then NothingToSwitch
    else
      match Selection(choice, |adapters|)
      case None => InvalidSelection
      case Some(i) => Switched(adapters[i].name, Disabled(adapters, adapters[i].name))
  }

  /** A switch happens only with at least two `hci` lines; it keeps the
      adapter whose number was typed and takes down every adapter of another
      name. */
  lemma MainSpec(lines: seq<string>, choice: string)
    ensures Switcher(lines, choice).Switched? ==>
      |HciNames(lines)| >= 2
      && (exists i :: 0 <= i < |HciNames(lines)| && Selection(choice, |HciNames(lines)|) == Some(i)
                       && Switcher(lines, choice).kept == HciNames(lines)[i])
      && Switcher(lines, choice).kept !in Switcher(lines, choice).disabled
    ensures |HciNames(lines)| < 2 ==> Switcher(lines, choice) == NothingToSwitch
  {
    AdapterNames(lines);
    var a := Adapters(lines);
    assert |Names(a)| == |a|;
    if |a| >= 2 && Selection(choice, |a|).Some? {
      var i := Selection(choice, |a|).value;
      DisabledSpec(a, a[i].name);
      assert Names(a)[i] == a[i].name;
    }
  }
}
