/**
 * The body-parsing tail of `getIpAddress` in cmd/ip.go: the trace text is
 * split into lines on "\n", and the first line that starts with `ip=` gives
 * the address, which is the rest of that line exactly as written. When no
 * line starts with `ip=` the address is "".
 */
module Trace {
  import opened GoStrings

  datatype Option<T> = None | Some(value: T)

  const Newline: char := '\n'
  const IpPrefix: string := "ip="

  /** The lines of a trace body, as `strings.Split(body, "\n")` gives them. */
  function Lines(body: string): (lines: seq<string>)
    ensures |lines| >= 1
    ensures forall i :: 0 <= i < |lines| ==> Newline !in lines[i]
  {
    Split(body, Newline)
  }

  /** The index of the first line that starts with `prefix`, if any. */
  function FirstWithPrefix(lines: seq<string>, prefix: string): (r: Option<nat>)
    ensures r.Some? ==> r.value < |lines| && HasPrefix(lines[r.value], prefix)
    ensures r.Some? ==> forall j :: 0 <= j < r.value ==> !HasPrefix(lines[j], prefix)
    ensures r.None? <==> forall j :: 0 <= j < |lines| ==> !HasPrefix(lines[j], prefix)
  {
    if lines == [] then None
    else if HasPrefix(lines[0], prefix) then Some(0)
    else
      match FirstWithPrefix(lines[1..], prefix)
      case None => None
      case Some(k) => Some(k + 1)
  }

  /**
   * The address the scan over `lines` finds: the first line with the `ip=`
   * prefix, without that prefix; "" when no line has it.
   */
  function AddressInLines(lines: seq<string>): (address: string)
    ensures address != "" ==> IpPrefix + address in lines
  {
    match FirstWithPrefix(lines, IpPrefix)
    case None => ""
    case Some(k) => TrimPrefix(lines[k], IpPrefix)
  }

  /**
   * The address `getIpAddress` returns for a body it has read. It is part of
   * a single line, so it holds no newline; nothing else is trimmed from it.
   */
  function ParseTrace(body: string): (address: string)
    ensures Newline !in address
    ensures address != "" ==> IpPrefix + address in Lines(body)
  {
    var lines := Lines(body);
    var address := AddressInLines(lines);
    assert address != "" ==> Newline !in IpPrefix + address;
    address
  }

  /**
   * The scan as cmd/ip.go writes it: walk the lines in order, return at the
   * first one with the `ip=` prefix, and return "" when the loop runs out.
   */
  method ParseBody(body: string) returns (address: string)
    ensures address == ParseTrace(body)
  {
    var lines := Split(body, Newline);
    var i := 0;
    while i < |lines|
      invariant 0 <= i <= |lines|
      invariant forall j :: 0 <= j < i ==> !HasPrefix(lines[j], IpPrefix)
    {
      if HasPrefix(lines[i], IpPrefix) {
        address := TrimPrefix(lines[i], IpPrefix);
        return;
      }
      i := i + 1;
    }
    address := "";
  }

  // ---------------------------------------------------------------------
  // What the parse promises, over all bodies.
  // ---------------------------------------------------------------------

  /**
   * A line matches exactly when its first three characters are `i`, `p`,
   * `=`: the test is case-sensitive and anchored at the start of the line.
   */
  lemma MatchIsExactPrefix(line: string)
    ensures HasPrefix(line, IpPrefix) <==>
            |line| >= 3 && line[0] == 'i' && line[1] == 'p' && line[2] == '='
  {
  }

  /** When line `k` is the first with the prefix, the address is the rest of that line. */
  lemma ParseTraceFirstMatch(body: string, k: nat)
    requires k < |Lines(body)| && HasPrefix(Lines(body)[k], IpPrefix)
    requires forall j :: 0 <= j < k ==> !HasPrefix(Lines(body)[j], IpPrefix)
    ensures IpPrefix + ParseTrace(body) == Lines(body)[k]
  {
  }

  /** When no line has the prefix, the address is "". */
  lemma ParseTraceNoMatch(body: string)
    requires forall j :: 0 <= j < |Lines(body)| ==> !HasPrefix(Lines(body)[j], IpPrefix)
    ensures ParseTrace(body) == ""
  {
  }

  /**
   * Round trip: a non-empty address, with `ip=` put back in front, is a line
   * of the body, and no earlier line has the prefix.
   */
  lemma ParseTraceEarliest(body: string)
    requires ParseTrace(body) != ""
    ensures exists k :: 0 <= k < |Lines(body)| && Lines(body)[k] == IpPrefix + ParseTrace(body) &&
                        forall j :: 0 <= j < k ==> !HasPrefix(Lines(body)[j], IpPrefix)
  {
  }

  /** Once some line matches, lines appended after it do not change the first match. */
  lemma {:induction false} FirstWithPrefixAppend(front: seq<string>, back: seq<string>, prefix: string)
    requires FirstWithPrefix(front, prefix).Some?
    ensures FirstWithPrefix(front + back, prefix) == FirstWithPrefix(front, prefix)
  {
    assert (front + back)[0] == front[0];
    if !HasPrefix(front[0], prefix) {
      assert (front + back)[1..] == front[1..] + back;
      FirstWithPrefixAppend(front[1..], back, prefix);
    }
  }

  /** A first line without the prefix is skipped by the scan. */
  lemma AddressSkipsHead(lines: seq<string>)
    requires |lines| >= 1 && !HasPrefix(lines[0], IpPrefix)
    ensures AddressInLines(lines) == AddressInLines(lines[1..])
  {
  }

  /** A first line with the prefix decides the address. */
  lemma AddressAtHead(lines: seq<string>)
    requires |lines| >= 1 && HasPrefix(lines[0], IpPrefix)
    ensures AddressInLines(lines) == TrimPrefix(lines[0], IpPrefix)
  {
  }

  /** A line without the prefix, wherever it sits, has no effect on the address. */
  lemma {:induction false} NonMatchingLineIgnored(front: seq<string>, line: string, back: seq<string>)
    requires !HasPrefix(line, IpPrefix)
    ensures AddressInLines(front + [line] + back) == AddressInLines(front + back)
    decreases |front|
  {
    var all := front + [line] + back;
    var without := front + back;
    if front == [] {
      assert all == [line] + back;
      assert all[1..] == without;
      AddressSkipsHead(all);
    } else {
      assert all[0] == front[0] && without[0] == front[0];
      if HasPrefix(front[0], IpPrefix) {
        AddressAtHead(all);
        AddressAtHead(without);
      } else {
        assert all[1..] == front[1..] + [line] + back;
        assert without[1..] == front[1..] + back;
        NonMatchingLineIgnored(front[1..], line, back);
        AddressSkipsHead(all);
        AddressSkipsHead(without);
      }
    }
  }

  /**
   * Only the first match counts: when the text before a newline already has
   * an `ip=` line, whatever follows that newline does not change the address.
   */
  lemma LaterTextIgnored(front: string, back: string)
    requires FirstWithPrefix(Lines(front), IpPrefix).Some?
    ensures ParseTrace(front + [Newline] + back) == ParseTrace(front)
  {
    SplitConcat(front, back, Newline);
    FirstWithPrefixAppend(Lines(front), Lines(back), IpPrefix);
    var k := FirstWithPrefix(Lines(front), IpPrefix).value;
    assert (Lines(front) + Lines(back))[k] == Lines(front)[k];
  }

  /**
   * A line that does not start with `ip=` (such as ` ip=...` or `IP=...`)
   * can be removed from anywhere in the body without changing the address.
   */
  lemma NonMatchingBodyLineIgnored(front: string, line: string, back: string)
    requires Newline !in line && !HasPrefix(line, IpPrefix)
    ensures ParseTrace(front + [Newline] + line + [Newline] + back) == ParseTrace(front + [Newline] + back)
  {
    var tail := line + [Newline] + back;
    var withLine := front + [Newline] + line + [Newline] + back;
    var withoutLine := front + [Newline] + back;
    var before, after := Lines(front), Lines(back);
    assert withLine == front + [Newline] + tail;
    SplitOnLine(line, back);
    SplitConcat(front, tail, Newline);
    SplitConcat(front, back, Newline);
    assert Lines(withLine) == before + ([line] + after);
    AppendAssoc(before, [line], after);
    NonMatchingLineIgnored(before, line, after);
  }

  /** Concatenation of sequences is associative. */
  lemma AppendAssoc<T>(a: seq<T>, b: seq<T>, c: seq<T>)
    ensures a + (b + c) == a + b + c
  {
  }

  /** A newline-free line followed by a newline and more text splits into that line, then the rest. */
  lemma SplitOnLine(line: string, rest: string)
    requires Newline !in line
    ensures Lines(line + [Newline] + rest) == [line] + Lines(rest)
  {
    SplitConcat(line, rest, Newline);
    SplitPlain(line, Newline);
  }

  /** A leading line without the prefix is skipped: the address comes from the rest. */
  lemma LeadingLineSkipped(line: string, rest: string)
    requires Newline !in line && !HasPrefix(line, IpPrefix)
    ensures ParseTrace(line + [Newline] + rest) == ParseTrace(rest)
  {
    var lines := Lines(line + [Newline] + rest);
    SplitOnLine(line, rest);
    assert lines[1..] == Lines(rest);
    AddressSkipsHead(lines);
  }

  /** A body whose first line is `ip=` followed by `x`: the address is `x`, whatever follows. */
  lemma FirstLineAddress(x: string, rest: string)
    requires Newline !in x
    ensures ParseTrace(IpPrefix + x + [Newline] + rest) == x
  {
    var line := IpPrefix + x;
    assert Newline !in IpPrefix;
    assert Newline !in line;
    SplitPlain(line, Newline);
    TrimPrefixOfConcat(IpPrefix, x);
    LaterTextIgnored(line, rest);
  }

  /** A body that is a single line with no newline. */
  lemma SingleLineAddress(line: string)
    requires Newline !in line
    ensures ParseTrace(line) == if HasPrefix(line, IpPrefix) then line[|IpPrefix|..] else ""
  {
    SplitPlain(line, Newline);
  }

  /** A body built by joining newline-free lines is parsed line by line. */
  lemma ParseJoinedLines(lines: seq<string>)
    requires |lines| >= 1
    requires forall i :: 0 <= i < |lines| ==> Newline !in lines[i]
    ensures ParseTrace(Join(lines, Newline)) == AddressInLines(lines)
  {
    JoinThenSplit(lines, Newline);
  }

  // ---------------------------------------------------------------------
  // Worked bodies, written as their lines joined with "\n".
  // ---------------------------------------------------------------------

  /** A trace body with the address on its third line. */
  lemma TraceExample()
    ensures ParseTrace(Join(["fl=29f", "h=1.1.1.1", "ip=203.0.113.7", "ts=1700000000.123"], Newline))
            == "203.0.113.7"
  {
    var lines := ["fl=29f", "h=1.1.1.1", "ip=203.0.113.7", "ts=1700000000.123"];
    ParseJoinedLines(lines);
    MatchIsExactPrefix(lines[0]);
    MatchIsExactPrefix(lines[1]);
    AddressSkipsHead(lines);
    assert lines[1..] == ["h=1.1.1.1", "ip=203.0.113.7", "ts=1700000000.123"];
    AddressSkipsHead(lines[1..]);
    assert lines[2..] == [IpPrefix + "203.0.113.7", "ts=1700000000.123"];
    TrimPrefixOfConcat(IpPrefix, "203.0.113.7");
    AddressAtHead(lines[2..]);
  }

  /** Two `ip=` lines: the first one wins. */
  lemma TwoAddressLinesExample()
    ensures ParseTrace(Join(["ip=198.51.100.1", "ip=203.0.113.7"], Newline)) == "198.51.100.1"
  {
    var lines := ["ip=198.51.100.1", "ip=203.0.113.7"];
    ParseJoinedLines(lines);
    assert lines[0] == IpPrefix + "198.51.100.1";
    TrimPrefixOfConcat(IpPrefix, "198.51.100.1");
    AddressAtHead(lines);
  }

  /** A first line that is exactly `ip=` gives "", even when a later line has an address. */
  lemma EmptyFirstAddressExample()
    ensures ParseTrace(Join(["ip=", "ip=203.0.113.7"], Newline)) == ""
  {
    var lines := ["ip=", "ip=203.0.113.7"];
    ParseJoinedLines(lines);
    assert lines[0] == IpPrefix + "";
    TrimPrefixOfConcat(IpPrefix, "");
    AddressAtHead(lines);
  }

  /** The value is not trimmed: a carriage return before the newline stays. */
  lemma CarriageReturnKeptExample()
    ensures ParseTrace(Join(["ip=203.0.113.7\r", ""], Newline)) == "203.0.113.7\r"
  {
    var lines := ["ip=203.0.113.7\r", ""];
    ParseJoinedLines(lines);
    assert lines[0] == IpPrefix + "203.0.113.7\r";
    TrimPrefixOfConcat(IpPrefix, "203.0.113.7\r");
    AddressAtHead(lines);
  }

  /** Upper case never matches. */
  lemma UpperCaseExample()
    ensures ParseTrace(Join(["IP=203.0.113.7"], Newline)) == ""
  {
    var lines := ["IP=203.0.113.7"];
    ParseJoinedLines(lines);
    MatchIsExactPrefix(lines[0]);
  }

  /** A leading space never matches. */
  lemma IndentedExample()
    ensures ParseTrace(Join([" ip=203.0.113.7"], Newline)) == ""
  {
    var lines := [" ip=203.0.113.7"];
    ParseJoinedLines(lines);
    MatchIsExactPrefix(lines[0]);
  }

  /** An empty body is one empty line, which does not match. */
  lemma EmptyBodyExample()
    ensures ParseTrace("") == ""
  {
  }
}
