// What am_cfg_output.c writes, am_cfg_input.c reads back.

module CfgRoundTrip {
  import opened CfgText
  import opened CfgParse
  import opened CfgPrint
  import opened Seqs
  import opened Wrappers

  /** A name that reads back; an entry may also have a value without a key. */
  predicate Legal(call: Call) {
    match call
    case Store(key, value) => KeyName(key) || (key == "" && value != "")
    case Open(name) => SectionName(name)
    case Close => true
  }

  predicate AllLegal(calls: seq<Call>) {
    forall i :: 0 <= i < |calls| ==> Legal(calls[i])
  }

  /** The events the calls stand for, with the names of the open sections, innermost first. A close without an
      open section fails and stands for nothing. */
  function CallEvents(stack: seq<string>, call: Call): seq<Event> {
    match call
    case Store(key, value) => [Key(key, value)]
    case Open(name) => [Begin(name)]
    case Close => if stack == [] then [] else [End(stack[0])]
  }

  function StackAfter(stack: seq<string>, call: Call): seq<string> {
    match call
    case Store(_, _) => stack
    case Open(name) => [name] + stack
    case Close => if stack == [] then [] else stack[1..]
  }

  function Events(stack: seq<string>, calls: seq<Call>): seq<Event>
    decreases |calls|
  {
    if calls == [] then [] else CallEvents(stack, calls[0]) + Events(StackAfter(stack, calls[0]), calls[1..])
  }

  function FinalStack(stack: seq<string>, calls: seq<Call>): seq<string>
    decreases |calls|
  {
    if calls == [] then stack else FinalStack(StackAfter(stack, calls[0]), calls[1..])
  }

  // ---- names ------------------------------------------------------------------------------------

  /** A name is read up to the character that ends it. */
  lemma {:induction false} NameReadsBack(name: string, stop: char, rest: string)
    requires name != "" && (forall i :: 0 <= i < |name| ==> NameChar(name[i])) && NameEnd(stop)
    ensures ReadName(Cursor(Some(name[0]), name[1..] + [stop] + rest)) == Scan(name, Cursor(Some(stop), rest))
  {
    var first := Cursor(Some(name[0]), name[1..] + [stop] + rest);
    assert NameChar(name[0]);
    if |name| == 1 {
      assert name[1..] + [stop] + rest == [stop] + rest && ([stop] + rest)[1..] == rest;
      assert ReadName(Step(first.rest)) == Scan("", Cursor(Some(stop), rest));
      assert name == [name[0]];
    } else {
      assert (name[1..] + [stop] + rest)[1..] == name[1..][1..] + [stop] + rest;
      NameReadsBack(name[1..], stop, rest);
      assert name == [name[0]] + name[1..];
    }
  }

  lemma NameAfterTabs(tabs: string, name: string, stop: char, rest: string)
    requires (forall i :: 0 <= i < |tabs| ==> IsSpace(tabs[i])) && SectionName(name) && NameEnd(stop)
    ensures var first := SkipSpace(tabs + name + [stop] + rest);
            && first.ch == Some(name[0])
            && ReadName(first) == Scan(name, Cursor(Some(stop), rest))
  {
    var tail := name + [stop] + rest;
    assert tabs + name + [stop] + rest == tabs + tail;
    SkipsSpace(tabs, tail);
    assert tail[1..] == name[1..] + [stop] + rest;
    NameReadsBack(name, stop, rest);
  }

  // ---- values -----------------------------------------------------------------------------------

  lemma PairReadsBack(d: char, rest: string)
    requires d != '\n'
    ensures ReadQuoted(['\\', d] + rest) == Before([Unescaped(d)], ReadQuoted(rest))
  {
    assert (['\\', d] + rest)[2..] == rest;
  }

  lemma PlainReadsBack(c: char, rest: string)
    requires c != '\n' && c != '\\'
    ensures ReadQuoted([c] + rest) == Before([c], ReadQuoted(rest))
  {
    assert ([c] + rest)[1..] == rest;
  }

  /** The character behind the backslash, for those that are escaped. */
  lemma EscapedShape(c: char) returns (d: char)
    ensures |Escaped(c)| == 1 ==> Escaped(c) == [c] && c != '\n' && c != '\\'
    ensures |Escaped(c)| != 1 ==> Escaped(c) == ['\\', d] && d != '\n' && Unescaped(d) == c
  {
    d := if |Escaped(c)| == 2 then Escaped(c)[1] else c;
  }

  lemma EscapedReadsBack(c: char, rest: string)
    ensures ReadQuoted(Escaped(c) + rest) == Before([c], ReadQuoted(rest))
  {
    var d := EscapedShape(c);
    if |Escaped(c)| == 1 {
      PlainReadsBack(c, rest);
    } else {
      PairReadsBack(d, rest);
    }
  }

  /** Reading undoes escaping, for every value: quotes, backslashes, line ends and trailing blanks included. */
  lemma {:induction false} ValueReadsBack(value: string, rest: string)
    ensures ReadQuoted(Escape(value) + "\"\n" + rest) == Scan(value + "\"", Cursor(Some('\n'), rest))
  {
    if value == "" {
      QuoteEnds(rest);
      assert Escape(value) + "\"\n" + rest == "\"\n" + rest && value + "\"" == "\"";
    } else {
      var tail := Escape(value[1..]) + "\"\n" + rest;
      Regroup(Escaped(value[0]), Escape(value[1..]), "\"\n");
      Regroup(Escaped(value[0]), Escape(value[1..]) + "\"\n", rest);
      EscapedReadsBack(value[0], tail);
      ValueReadsBack(value[1..], rest);
      Regroup([value[0]], value[1..], "\"");
      assert [value[0]] + value[1..] == value;
    }
  }

  lemma QuoteEnds(rest: string)
    ensures ReadQuoted("\"\n" + rest) == Scan("\"", Cursor(Some('\n'), rest))
  {
    var s := "\"\n" + rest;
    assert s[1..] == "\n" + rest && ("\n" + rest)[1..] == rest;
    assert ReadQuoted(s[1..]) == Scan("", Step(s[1..]));
  }

  // ---- lines ------------------------------------------------------------------------------------

  lemma StoreReadsBack(stack: seq<string>, level: nat, key: CString, value: CString, rest: string)
    requires KeyName(key)
    ensures ReadLine(stack, CallText(level, Store(key, value)) + rest) == Line([Key(key, value)], stack, rest, false)
  {
    var quoted := "\"" + Escape(value) + "\"\n" + rest;
    Regrouped(Tabs(level), key, Escape(value), rest);
    NameAfterTabs(Tabs(level), key, '=', quoted);
    QuotedReadsBack(value, rest);
    assert TrimEnd(key) == key;
    var text := value + "\"";
    assert TrimEnd(text) == text && text[..|text| - 1] == value;
    assert ReadLine(stack, Tabs(level) + key + ['='] + quoted) == ReadValue(stack, key, quoted);
    assert JudgeValue(stack, key, true, text, Cursor(Some('\n'), rest)) == Line([Key(key, value)], stack, rest, false);
  }

  lemma Regrouped(tabs: string, key: string, value: string, rest: string)
    ensures tabs + key + "=\"" + value + "\"\n" + rest == tabs + key + ['='] + ("\"" + value + "\"\n" + rest)
  {
  }

  lemma QuotedReadsBack(value: string, rest: string)
    ensures var quoted := "\"" + Escape(value) + "\"\n" + rest;
            Quoted(quoted) && ValueScan(quoted) == Scan(value + "\"", Cursor(Some('\n'), rest))
  {
    var quoted := "\"" + Escape(value) + "\"\n" + rest;
    assert quoted[0] == '"' && quoted[1..] == Escape(value) + "\"\n" + rest;
    assert SkipBlank(quoted) == Cursor(Some('"'), quoted[1..]);
    ValueReadsBack(value, rest);
  }

  lemma OpenReadsBack(stack: seq<string>, level: nat, name: CString, rest: string)
    requires SectionName(name)
    ensures ReadLine(stack, CallText(level, Open(name)) + rest) ==
            Line([Begin(name)], [name] + stack, "\n" + rest, false)
  {
    assert CallText(level, Open(name)) + rest == Tabs(level) + name + ['{'] + ("\n" + rest);
    NameAfterTabs(Tabs(level), name, '{', "\n" + rest);
  }

  lemma CloseReadsBack(stack: seq<string>, rest: string)
    requires stack != []
    ensures ReadLine(stack, CallText(|stack|, Close) + rest) == Line([End(stack[0])], stack[1..], "\n" + rest, false)
  {
    var tabs := Tabs(|stack| - 1);
    assert CallText(|stack|, Close) + rest == tabs + "}" + ("\n" + rest);
    CloseNeedsOpen(stack, tabs, "\n" + rest);
  }

  // ---- which names are needed -------------------------------------------------------------------

  lemma {:induction false} NameIsClean(cur: Cursor)
    requires NulFree(cur.rest) && cur.ch != Some(NUL)
    ensures forall i :: 0 <= i < |ReadName(cur).text| ==> NameChar(ReadName(cur).text[i])
    decreases Left(cur)
  {
    if cur.ch.Some? && !NameEnd(cur.ch.value) {
      NameIsClean(Step(cur.rest));
    }
  }

  lemma {:induction false} SkipSpaceClean(input: string)
    requires NulFree(input)
    ensures NulFree(SkipSpace(input).rest) && SkipSpace(input).ch != Some(NUL)
  {
    if input != "" && IsSpace(input[0]) {
      SkipSpaceClean(input[1..]);
    }
  }

  /** Whatever is read from a file without NULs, its names are legal; only a key can be empty. */
  lemma ReadNamesAreLegal(stack: seq<string>, input: string, e: Event)
    requires NulFree(input) && ReadLine(stack, input).Line? && ReadLine(stack, input).events == [e]
    ensures e.Key? ==> e.key == "" || KeyName(e.key)
    ensures e.Begin? ==> SectionName(e.name)
  {
    SkipSpaceClean(input);
    var first := SkipSpace(input);
    if first.ch.Some? && first.ch.value != '}' {
      var text := ReadName(first).text;
      NameIsClean(first);
      assert text != "" ==> text[0] == first.ch.value;
      NameIsLegal(text);
      NamedEvent(stack, ReadName(first), e);
    }
  }

  lemma NameIsLegal(text: string)
    requires forall i :: 0 <= i < |text| ==> NameChar(text[i])
    requires text != "" ==> text[0] != '}' && !IsSpace(text[0])
    ensures NulFree(text) && (text != "" ==> SectionName(text))
    ensures NulFree(TrimEnd(text)) && (TrimEnd(text) != "" ==> KeyName(TrimEnd(text)))
  {
    var key := TrimEnd(text);
    assert forall i :: 0 <= i < |key| ==> key[i] == text[i];
  }

  lemma NamedEvent(stack: seq<string>, name: Scan, e: Event)
    requires NamedLine(stack, name).Line? && NamedLine(stack, name).events == [e]
    ensures e.Key? ==> e.key == AsCString(TrimEnd(name.text))
    ensures e.Begin? ==> e.name == AsCString(name.text) && name.text != ""
    ensures !e.End?
  {
    assert [e][0] == e;
  }

  lemma {:induction false} EscapeNulFree(value: CString)
    ensures NulFree(Escape(value))
  {
    if value != "" {
      assert value[0] != NUL;
      EscapeNulFree(value[1..]);
    }
  }

  /** An entry without a key reads back if it has a value. */
  lemma KeylessReadsBack(stack: seq<string>, level: nat, value: CString, rest: string)
    ensures ReadLine(stack, CallText(level, Store("", value)) + rest) ==
            Line(if value == "" then [] else [Key("", value)], stack, rest, false)
  {
    var quoted := "\"" + Escape(value) + "\"\n" + rest;
    Regrouped(Tabs(level), "", Escape(value), rest);
    KeylessStart(Tabs(level), quoted);
    QuotedReadsBack(value, rest);
    var text := value + "\"";
    assert TrimEnd(text) == text && text[..|text| - 1] == value;
    assert JudgeValue(stack, "", true, text, Cursor(Some('\n'), rest)) ==
           Line(if value == "" then [] else [Key("", value)], stack, rest, false);
  }

  lemma KeylessStart(tabs: string, rest: string)
    requires forall i :: 0 <= i < |tabs| ==> IsSpace(tabs[i])
    ensures var first := SkipSpace(tabs + "" + ['='] + rest);
            first == Cursor(Some('='), rest) && ReadName(first) == Scan("", first)
  {
    var tail := ['='] + rest;
    assert tabs + "" + ['='] + rest == tabs + tail;
    SkipsSpace(tabs, tail);
    assert tail[0] == '=' && tail[1..] == rest;
  }

  /** A stored line reads back as itself exactly when its key is legal, or when it has a value but no key. */
  lemma StoreReadsBackExactly(stack: seq<string>, level: nat, key: CString, value: CString, rest: string)
    requires NulFree(rest)
    ensures ReadLine(stack, CallText(level, Store(key, value)) + rest) == Line([Key(key, value)], stack, rest, false)
            <==> Legal(Store(key, value))
  {
    if KeyName(key) {
      StoreReadsBack(stack, level, key, value, rest);
    } else if key == "" {
      KeylessReadsBack(stack, level, value, rest);
    } else {
      EscapeNulFree(value);
      var input := CallText(level, Store(key, value)) + rest;
      assert NulFree(input);
      if ReadLine(stack, input) == Line([Key(key, value)], stack, rest, false) {
        ReadNamesAreLegal(stack, input, Key(key, value));
      }
    }
  }

  lemma LegalReadsBack(stack: seq<string>, level: nat, key: CString, value: CString, rest: string)
    requires Legal(Store(key, value))
    ensures ReadLine(stack, CallText(level, Store(key, value)) + rest) == Line([Key(key, value)], stack, rest, false)
  {
    if key == "" {
      KeylessReadsBack(stack, level, value, rest);
    } else {
      StoreReadsBack(stack, level, key, value, rest);
    }
  }

  /** A section reads back as itself exactly when its name is legal. */
  lemma OpenReadsBackExactly(stack: seq<string>, level: nat, name: CString, rest: string)
    requires NulFree(rest)
    ensures ReadLine(stack, CallText(level, Open(name)) + rest) ==
            Line([Begin(name)], [name] + stack, "\n" + rest, false)
            <==> SectionName(name)
  {
    if SectionName(name) {
      OpenReadsBack(stack, level, name, rest);
    } else {
      var input := CallText(level, Open(name)) + rest;
      assert NulFree(input);
      if ReadLine(stack, input) == Line([Begin(name)], [name] + stack, "\n" + rest, false) {
        ReadNamesAreLegal(stack, input, Begin(name));
      }
    }
  }

  /** A line end before a line does not matter. */
  lemma NewlineSkipped(stack: seq<string>, rest: string)
    ensures Parse(stack, "\n" + rest) == Parse(stack, rest)
  {
    SkipsSpace("\n", rest);
    assert ReadLine(stack, "\n" + rest) == ReadLine(stack, rest);
  }

  /** The text of one call reads as its events, and reading goes on behind it. */
  lemma CallReadsBack(stack: seq<string>, call: Call, rest: string)
    requires Legal(call)
    ensures var more := Parse(StackAfter(stack, call), rest);
            Parse(stack, CallText(|stack|, call) + rest) ==
            Outcome(more.status, CallEvents(stack, call) + more.events, more.stack)
  {
    match call
    case Store(key, value) => LegalReadsBack(stack, |stack|, key, value, rest);
    case Open(name) =>
      OpenReadsBack(stack, |stack|, name, rest);
      NewlineSkipped([name] + stack, rest);
    case Close =>
      if stack == [] {
        assert CallText(0, Close) + rest == rest;
        assert [] + Parse([], rest).events == Parse([], rest).events;
      } else {
        CloseReadsBack(stack, rest);
        NewlineSkipped(stack[1..], rest);
      }
  }

  /**
   * Round trip of the text: whatever sequence of output calls is made, as long as the names are legal, their text
   * means exactly their events in order, with every value unchanged.
   */
  lemma {:induction false} RoundTrip(stack: seq<string>, calls: seq<Call>)
    requires AllLegal(calls)
    ensures Parse(stack, Text(|stack|, calls)) == Outcome(Ok, Events(stack, calls), FinalStack(stack, calls))
    decreases |calls|
  {
    if calls == [] {
      assert Text(|stack|, calls) == "";
      assert SkipSpace("") == Cursor(None, "");
    } else {
      assert AllLegal(calls[1..]);
      var after := StackAfter(stack, calls[0]);
      assert |after| == LevelAfter(|stack|, calls[0]);
      CallReadsBack(stack, calls[0], Text(|after|, calls[1..]));
      RoundTrip(after, calls[1..]);
    }
  }

  // ---- the growing buffer -----------------------------------------------------------------------

  /** The parser's buffer after it has read a call's text. */
  function MemoryAfter(m: Memory, call: Call): Memory {
    match call
    case Store(key, value) =>
      if key == "" then Grown(m, |value| + 1) else Grown(Grown(m, |key| + 1), |key| + |value| + 2)
    case Open(name) => Grown(m, |name| + 1)
    case Close => m
  }

  /** Making room for key and value, each with a NUL, does not move the buffer that holds the key. */
  predicate EntryStays(m: Memory, call: Call) {
    call.Store? && call.key != "" ==>
      !MovedOn(m.moves, Grown(m, |call.key| + 1).room, |call.key| + |call.value| + 2)
  }

  predicate CallsStay(m: Memory, calls: seq<Call>)
    decreases |calls|
  {
    calls == [] || (EntryStays(m, calls[0]) && CallsStay(MemoryAfter(m, calls[0]), calls[1..]))
  }

  /** a characters need room for the key, n for the whole entry. */
  lemma StoreRoom(m: Memory, level: nat, key: CString, value: CString, rest: string, a: nat, n: nat)
    requires KeyName(key) && a == |key| + 1 && n == |key| + |value| + 2
    ensures var input := CallText(level, Store(key, value)) + rest;
            && LineMemory(m, input) == Grown(Grown(m, a), n)
            && (Moves(m, input) <==> MovedOn(m.moves, Grown(m, a).room, n))
  {
    var quoted := "\"" + Escape(value) + "\"\n" + rest;
    Regrouped(Tabs(level), key, Escape(value), rest);
    NameAfterTabs(Tabs(level), key, '=', quoted);
    QuotedReadsBack(value, rest);
    var name := Scan(key, Cursor(Some('='), quoted));
    StoreNeeds(name, key, value, quoted, a, n);
    NamedNeeds(m, name, a, n);
    NamedInput(m, Tabs(level) + key + ['='] + quoted, name);
  }

  lemma KeylessRoom(m: Memory, level: nat, value: CString, rest: string, n: nat)
    requires n == |value| + 1
    ensures var input := CallText(level, Store("", value)) + rest;
            LineMemory(m, input) == Grown(m, n) && !Moves(m, input)
  {
    var quoted := "\"" + Escape(value) + "\"\n" + rest;
    Regrouped(Tabs(level), "", Escape(value), rest);
    KeylessStart(Tabs(level), quoted);
    QuotedReadsBack(value, rest);
    var name := Scan("", Cursor(Some('='), quoted));
    KeylessNeeds(name, value, quoted, n);
    NamedInput(m, Tabs(level) + "" + ['='] + quoted, name);
  }

  lemma KeylessNeeds(name: Scan, value: string, quoted: string, n: nat)
    requires name == Scan("", Cursor(Some('='), quoted))
    requires Quoted(quoted) && ValueScan(quoted).text == value + "\"" && n == |value| + 1
    ensures NameRoom("") == 0 && KeyedRoom(name) == n
  {
    assert TrimEnd(value + "\"") == value + "\"";
  }

  lemma NamedInput(m: Memory, input: string, name: Scan)
    requires IsNamed(SkipSpace(input)) && ReadName(SkipSpace(input)) == name
    ensures LineMemory(m, input) == NamedMemory(m, name) && (Moves(m, input) <==> NamedMoves(m, name))
  {
  }

  lemma StoreNeeds(name: Scan, key: string, value: string, quoted: string, a: nat, n: nat)
    requires name == Scan(key, Cursor(Some('='), quoted)) && key != "" && TrimEnd(key) == key
    requires Quoted(quoted) && ValueScan(quoted).text == value + "\""
    requires a == |key| + 1 && n == |key| + |value| + 2
    ensures NameRoom(key) == a && KeyedRoom(name) == n
  {
    assert TrimEnd(value + "\"") == value + "\"";
  }

  lemma OpenRoom(m: Memory, level: nat, name: CString, rest: string)
    requires SectionName(name)
    ensures var input := CallText(level, Open(name)) + rest;
            LineMemory(m, input) == MemoryAfter(m, Open(name)) && !Moves(m, input)
  {
    assert CallText(level, Open(name)) + rest == Tabs(level) + name + ['{'] + ("\n" + rest);
    NameAfterTabs(Tabs(level), name, '{', "\n" + rest);
  }

  lemma CloseRoom(m: Memory, level: nat, rest: string)
    requires level > 0
    ensures var input := CallText(level, Close) + rest; LineMemory(m, input) == m && !Moves(m, input)
  {
    var tabs := Tabs(level - 1);
    assert CallText(level, Close) + rest == tabs + ("}\n" + rest);
    SkipsSpace(tabs, "}\n" + rest);
  }

  lemma NewlineSkippedIn(m: Memory, stack: seq<string>, rest: string)
    ensures ParseIn(m, stack, "\n" + rest) == ParseIn(m, stack, rest)
  {
    SkipsSpace("\n", rest);
    assert LineIn(m, stack, "\n" + rest) == LineIn(m, stack, rest);
    assert LineMemory(m, "\n" + rest) == LineMemory(m, rest);
  }

  function EventThen(e: Event, more: Outcome): Outcome {
    Outcome(more.status, [e] + more.events, more.stack)
  }

  /** One line of a file that goes on. */
  lemma LineThenRest(m: Memory, stack: seq<string>, input: string, l: Line)
    requires ReadLine(stack, input) == l && l.Line? && !l.end
    ensures var more := ParseIn(LineMemory(m, input), l.stack, l.rest);
            ParseIn(m, stack, input) ==
            if Moves(m, input) then Outcome(Crash, [], stack)
            else Outcome(more.status, l.events + more.events, more.stack)
  {
  }

  lemma StoreReadsBackIn(m: Memory, stack: seq<string>, key: CString, value: CString, rest: string, a: nat, n: nat,
                         stays: bool, after: Memory)
    requires KeyName(key) && a == |key| + 1 && n == |key| + |value| + 2
    requires stays == !MovedOn(m.moves, Grown(m, a).room, n) && after == Grown(Grown(m, a), n)
    ensures ParseIn(m, stack, CallText(|stack|, Store(key, value)) + rest) ==
            if stays then EventThen(Key(key, value), ParseIn(after, stack, rest)) else Outcome(Crash, [], stack)
  {
    StoreReadsBack(stack, |stack|, key, value, rest);
    StoreRoom(m, |stack|, key, value, rest, a, n);
    var input := CallText(|stack|, Store(key, value)) + rest;
    LineThenRest(m, stack, input, Line([Key(key, value)], stack, rest, false));
  }

  lemma KeylessReadsBackIn(m: Memory, stack: seq<string>, value: CString, rest: string, n: nat, after: Memory)
    requires value != "" && n == |value| + 1 && after == Grown(m, n)
    ensures ParseIn(m, stack, CallText(|stack|, Store("", value)) + rest) ==
            EventThen(Key("", value), ParseIn(after, stack, rest))
  {
    KeylessReadsBack(stack, |stack|, value, rest);
    KeylessRoom(m, |stack|, value, rest, n);
    var input := CallText(|stack|, Store("", value)) + rest;
    LineThenRest(m, stack, input, Line([Key("", value)], stack, rest, false));
  }

  lemma OpenReadsBackIn(m: Memory, stack: seq<string>, name: CString, rest: string)
    requires SectionName(name)
    ensures var more := ParseIn(MemoryAfter(m, Open(name)), [name] + stack, rest);
            ParseIn(m, stack, CallText(|stack|, Open(name)) + rest) == EventThen(Begin(name), more)
  {
    var input := CallText(|stack|, Open(name)) + rest;
    OpenReadsBack(stack, |stack|, name, rest);
    OpenRoom(m, |stack|, name, rest);
    LineThenRest(m, stack, input, Line([Begin(name)], [name] + stack, "\n" + rest, false));
    NewlineSkippedIn(MemoryAfter(m, Open(name)), [name] + stack, rest);
  }

  lemma CloseReadsBackIn(m: Memory, stack: seq<string>, rest: string)
    requires stack != []
    ensures var more := ParseIn(m, stack[1..], rest);
            ParseIn(m, stack, CallText(|stack|, Close) + rest) == EventThen(End(stack[0]), more)
  {
    var input := CallText(|stack|, Close) + rest;
    CloseReadsBack(stack, rest);
    CloseRoom(m, |stack|, rest);
    LineThenRest(m, stack, input, Line([End(stack[0])], stack[1..], "\n" + rest, false));
    NewlineSkippedIn(m, stack[1..], rest);
  }

  /** The parser reads the text of a call whose key stays, and goes on behind it; otherwise it crashes there. */
  lemma CallReadsBackIn(m: Memory, stack: seq<string>, call: Call, rest: string)
    requires Legal(call)
    ensures var more := ParseIn(MemoryAfter(m, call), StackAfter(stack, call), rest);
            ParseIn(m, stack, CallText(|stack|, call) + rest) ==
            if EntryStays(m, call) then Outcome(more.status, CallEvents(stack, call) + more.events, more.stack)
            else Outcome(Crash, [], stack)
  {
    match call
    case Store(key, value) =>
      var stays, after := EntryStays(m, call), MemoryAfter(m, call);
      if key == "" {
        KeylessReadsBackIn(m, stack, value, rest, |value| + 1, after);
      } else {
        StoreReadsBackIn(m, stack, key, value, rest, |key| + 1, |key| + |value| + 2, stays, after);
      }
    case Open(name) => OpenReadsBackIn(m, stack, name, rest);
    case Close =>
      if stack == [] {
        assert CallText(0, Close) + rest == rest;
        assert [] + ParseIn(m, [], rest).events == ParseIn(m, [], rest).events;
      } else {
        CloseReadsBackIn(m, stack, rest);
      }
  }

  /**
   * Round trip of the program, for every answer of the system: the parser yields exactly the events of the calls if and
   * only if the buffer is never moved behind a key; otherwise it crashes, behind events that are the first ones of
   * the calls.
   */
  lemma {:induction false} ProgramRoundTrip(m: Memory, stack: seq<string>, calls: seq<Call>)
    requires AllLegal(calls)
    ensures var o := ParseIn(m, stack, Text(|stack|, calls));
            if CallsStay(m, calls) then o == Outcome(Ok, Events(stack, calls), FinalStack(stack, calls))
            else o.status == Crash && o.events <= Events(stack, calls)
    decreases |calls|
  {
    if calls == [] {
      assert Text(|stack|, calls) == "";
      assert SkipSpace("") == Cursor(None, "");
    } else {
      assert AllLegal(calls[1..]);
      var after := StackAfter(stack, calls[0]);
      assert |after| == LevelAfter(|stack|, calls[0]);
      CallReadsBackIn(m, stack, calls[0], Text(|after|, calls[1..]));
      ProgramRoundTrip(MemoryAfter(m, calls[0]), after, calls[1..]);
    }
  }

  /** Key and value fit into the room that the key alone has. */
  predicate EntryFits(room: nat, call: Call) {
    call.Store? && call.key != "" ==> |call.key| + |call.value| + 2 <= RoomFor(room, |call.key| + 1)
  }

  function RoomAfter(room: nat, call: Call): nat {
    match call
    case Store(key, value) =>
      if key == "" then RoomFor(room, |value| + 1) else RoomFor(RoomFor(room, |key| + 1), |key| + |value| + 2)
    case Open(name) => RoomFor(room, |name| + 1)
    case Close => room
  }

  predicate CallsFit(room: nat, calls: seq<Call>)
    decreases |calls|
  {
    calls == [] || (EntryFits(room, calls[0]) && CallsFit(RoomAfter(room, calls[0]), calls[1..]))
  }

  lemma RoomGrownTwice(m: Memory, a: nat, n: nat)
    ensures Grown(Grown(m, a), n).room == RoomFor(RoomFor(m.room, a), n)
  {
    RoomGrown(m, a);
    RoomGrown(Grown(m, a), n);
  }

  lemma RoomIsAfter(m: Memory, call: Call)
    ensures MemoryAfter(m, call).room == RoomAfter(m.room, call)
  {
    match call
    case Store(key, value) =>
      if key == "" {
        RoomGrown(m, |value| + 1);
      } else {
        RoomGrownTwice(m, |key| + 1, |key| + |value| + 2);
      }
    case Open(name) => RoomGrown(m, |name| + 1);
    case Close =>
  }

  lemma SystemStays(m: Memory, call: Call)
    ensures MemoryAfter(m, call).moves == m.moves
  {
  }

  /** Whatever the system answers, calls that fit stay. */
  lemma {:induction false} FittingCallsStay(m: Memory, calls: seq<Call>)
    requires CallsFit(m.room, calls)
    ensures CallsStay(m, calls)
    decreases |calls|
  {
    if calls != [] {
      if calls[0].Store? {
        RoomGrown(m, |calls[0].key| + 1);
      }
      RoomIsAfter(m, calls[0]);
      SystemStays(m, calls[0]);
      FittingCallsStay(MemoryAfter(m, calls[0]), calls[1..]);
    }
  }

  /** If it always moves the buffer, only those do. */
  lemma {:induction false} StayingCallsFit(m: Memory, calls: seq<Call>)
    requires CallsStay(m, calls) && forall r :: m.moves(r)
    ensures CallsFit(m.room, calls)
    decreases |calls|
  {
    if calls != [] {
      if calls[0].Store? {
        RoomGrown(m, |calls[0].key| + 1);
      }
      RoomIsAfter(m, calls[0]);
      SystemStays(m, calls[0]);
      StayingCallsFit(MemoryAfter(m, calls[0]), calls[1..]);
    }
  }

  lemma {:induction false} NotMoved(moves: nat -> bool, room: nat, n: nat)
    requires forall r :: !moves(r)
    ensures !MovedOn(moves, room, n)
    decreases n - room
  {
    if n > room {
      NotMoved(moves, Larger(room), n);
    }
  }

  /** If it never moves the buffer, all calls stay. */
  lemma {:induction false} CallsStayInPlace(m: Memory, calls: seq<Call>)
    requires forall r :: !m.moves(r)
    ensures CallsStay(m, calls)
    decreases |calls|
  {
    if calls != [] {
      if calls[0].Store? {
        NotMoved(m.moves, Grown(m, |calls[0].key| + 1).room, |calls[0].key| + |calls[0].value| + 2);
      }
      RoomIsAfter(m, calls[0]);
      SystemStays(m, calls[0]);
      CallsStayInPlace(MemoryAfter(m, calls[0]), calls[1..]);
    }
  }

  /** Keys and values of at most 62 characters together always fit. */
  lemma {:induction false} ShortEntriesFit(room: nat, calls: seq<Call>)
    requires forall i :: 0 <= i < |calls| && calls[i].Store? ==> |calls[i].key| + |calls[i].value| <= 62
    requires room == 0 || room >= 64
    ensures CallsFit(room, calls)
    decreases |calls|
  {
    if calls != [] {
      var call := calls[0];
      if call.Store? {
        FirstGrowth(room, |call.key| + 1);
      }
      if call.Open? {
        FirstGrowth(room, |call.name| + 1);
      }
      ShortEntriesFit(RoomAfter(room, call), calls[1..]);
    }
  }

  /** The first allocation has room for 64 characters. */
  lemma FirstGrowth(room: nat, n: nat)
    requires (room == 0 || room >= 64) && n > 0
    ensures RoomFor(room, n) >= 64
  {
  }

  /**
   * A first entry with a key of one character reads back with up to 61 characters of value, and with more of them
   * exactly if the system moves the buffer at none of the growths from 64 characters on that they need.
   */
  lemma LongValueCrashes(moves: nat -> bool, key: CString, value: CString, n: nat)
    requires KeyName(key) && |key| == 1 && n == |value| + 3
    ensures ParseIn(NoBuffer(moves), [], Text(0, [Store(key, value)])) ==
            if MovedOn(moves, 64, n) then Outcome(Crash, [], []) else Outcome(Ok, [Key(key, value)], [])
    ensures n <= 64 ==> !MovedOn(moves, 64, n)
    ensures n > 64 && moves(64) ==> MovedOn(moves, 64, n)
  {
    var m := NoBuffer(moves);
    FirstRoom(m);
    var stays, after := !MovedOn(moves, 64, n), Grown(Grown(m, 2), n);
    StoreReadsBackIn(m, [], key, value, "", 2, n, stays, after);
    OneCall(0, Store(key, value));
    NothingLeft(after);
    assert [Key(key, value)] + [] == [Key(key, value)];
  }

  lemma OneCall(level: nat, call: Call)
    ensures Text(level, [call]) == CallText(level, call) + ""
  {
    assert [call][1..] == [];
  }

  lemma NothingLeft(m: Memory)
    ensures ParseIn(m, [], "") == Outcome(Ok, [], [])
  {
    assert SkipSpace("") == Cursor(None, "");
  }

  lemma FirstRoom(m: Memory)
    requires m.room == 0
    ensures Grown(m, 2).room == 64
  {
    assert Enlarged(m).room == 64;
    assert Grown(m, 2) == Grown(Enlarged(m), 2) == Enlarged(m);
  }

  // ---- whole files --------------------------------------------------------------------------------

  lemma {:induction false} QuotedNulFree(rest: string)
    requires NulFree(rest)
    ensures NulFree(ReadQuoted(rest).text) && NulFree(ReadQuoted(rest).cur.rest)
    decreases |rest|
  {
    if rest != "" && rest[0] != '\n' {
      if rest[0] != '\\' {
        QuotedNulFree(rest[1..]);
      } else if |rest| > 1 && rest[1] != '\n' {
        QuotedNulFree(rest[2..]);
      } else if |rest| > 2 {
        QuotedNulFree(rest[3..]);
      }
    }
  }

  lemma {:induction false} TailNulFree(cur: Cursor)
    requires NulFree(cur.rest) && cur.ch != Some(NUL)
    ensures NulFree(ReadTail(cur).text) && NulFree(ReadTail(cur).cur.rest)
    decreases Left(cur)
  {
    if cur.ch.Some? && cur.ch.value != '\n' {
      TailNulFree(Step(cur.rest));
    }
  }

  lemma {:induction false} SkipBlankClean(rest: string)
    requires NulFree(rest)
    ensures NulFree(SkipBlank(rest).rest) && SkipBlank(rest).ch != Some(NUL)
  {
    if rest != "" && IsSpace(rest[0]) && rest[0] != '\n' {
      SkipBlankClean(rest[1..]);
    }
  }

  lemma ValueNulFree(rest: string)
    requires NulFree(rest)
    ensures NulFree(ValueScan(rest).text) && NulFree(ValueScan(rest).cur.rest)
  {
    SkipBlankClean(rest);
    var first := SkipBlank(rest);
    if Quoted(rest) {
      QuotedNulFree(first.rest);
    } else {
      TailNulFree(Step(first.rest));
    }
  }

  lemma {:induction false} NameRestClean(cur: Cursor)
    requires NulFree(cur.rest) && cur.ch != Some(NUL)
    ensures NulFree(ReadName(cur).text) && NulFree(ReadName(cur).cur.rest)
    decreases Left(cur)
  {
    if cur.ch.Some? && !NameEnd(cur.ch.value) {
      NameRestClean(Step(cur.rest));
    }
  }

  predicate LegalEvent(e: Event) {
    match e
    case Key(key, value) => KeyName(key) || (key == "" && value != "")
    case Begin(name) => SectionName(name)
    case End(_) => true
  }

  /** An entry that is read from a file without NULs has a key or a value. */
  lemma KeyOrValue(stack: seq<string>, input: string, key: string, value: string)
    requires NulFree(input) && ReadLine(stack, input).Line? && ReadLine(stack, input).events == [Key(key, value)]
    ensures key != "" || value != ""
  {
    SkipSpaceClean(input);
    var first := SkipSpace(input);
    var name := ReadName(first);
    NameRestClean(first);
    if name.cur.ch == Some('=') {
      ValueNulFree(name.cur.rest);
      JudgedKeyOrValue(stack, name, key, value);
    } else {
      assert NulFree(TrimEnd(name.text));
      assert [Key(key, value)][0] == Key(key, value);
    }
  }

  lemma JudgedKeyOrValue(stack: seq<string>, name: Scan, key: string, value: string)
    requires name.cur.ch == Some('=') && NulFree(name.text) && NulFree(ValueScan(name.cur.rest).text)
    requires NamedLine(stack, name).Line? && NamedLine(stack, name).events == [Key(key, value)]
    ensures key != "" || value != ""
  {
    var text := TrimEnd(ValueScan(name.cur.rest).text);
    assert NulFree(text) && NulFree(TrimEnd(name.text));
    var v := if Quoted(name.cur.rest) then text[..|text| - 1] else text;
    assert NulFree(v);
    assert [Key(key, value)][0] == Key(key, value);
  }

  /** All names and entries that are read from a file without NULs are legal. */
  lemma {:induction false} EventsAreLegal(stack: seq<string>, input: string)
    requires NulFree(input)
    ensures forall e :: e in Parse(stack, input).events ==> LegalEvent(e)
    decreases |input|
  {
    match ReadLine(stack, input)
    case Line(events, after, rest, end) =>
      assert |events| <= 1;
      if events != [] {
        assert events == [events[0]];
        ReadNamesAreLegal(stack, input, events[0]);
        if events[0].Key? {
          KeyOrValue(stack, input, events[0].key, events[0].value);
        }
      }
      if !end {
        RestNulFree(stack, input);
        EventsAreLegal(after, rest);
      }
    case _ =>
  }

  lemma {:induction false} CommentNulFree(cur: Cursor)
    requires NulFree(cur.rest)
    ensures NulFree(SkipComment(cur).rest)
    decreases Left(cur)
  {
    if cur.ch.Some? && cur.ch.value != '\n' {
      CommentNulFree(Step(cur.rest));
    }
  }

  lemma RestNulFree(stack: seq<string>, input: string)
    requires NulFree(input) && ReadLine(stack, input).Line?
    ensures NulFree(ReadLine(stack, input).rest)
  {
    SkipSpaceClean(input);
    var first := SkipSpace(input);
    if IsNamed(first) {
      var name := ReadName(first);
      NameRestClean(first);
      CommentNulFree(name.cur);
      if name.cur.ch == Some('=') {
        ValueNulFree(name.cur.rest);
        CommentNulFree(ValueScan(name.cur.rest).cur);
      }
    }
  }

  lemma CallNulFree(level: nat, call: Call)
    ensures NulFree(CallText(level, call))
  {
    if call.Store? {
      EscapeNulFree(call.value);
    }
  }

  lemma {:induction false} TextNulFree(level: nat, calls: seq<Call>)
    ensures NulFree(Text(level, calls))
    decreases |calls|
  {
    if calls != [] {
      CallNulFree(level, calls[0]);
      TextNulFree(LevelAfter(level, calls[0]), calls[1..]);
    }
  }

  /** A call that is not legal stands for an event that is not. */
  lemma {:induction false} IllegalEvent(stack: seq<string>, calls: seq<Call>)
    requires !AllLegal(calls)
    ensures exists e :: e in Events(stack, calls) && !LegalEvent(e)
    decreases |calls|
  {
    if Legal(calls[0]) {
      IllegalEvent(StackAfter(stack, calls[0]), calls[1..]);
    } else {
      var e := CallEvents(stack, calls[0])[0];
      assert e in Events(stack, calls) && !LegalEvent(e);
    }
  }

  /** A whole file means the events of the calls that wrote it if and only if they all are legal. */
  lemma FileReadsBackExactly(stack: seq<string>, calls: seq<Call>)
    ensures Parse(stack, Text(|stack|, calls)).events == Events(stack, calls) <==> AllLegal(calls)
  {
    if AllLegal(calls) {
      RoundTrip(stack, calls);
    } else {
      TextNulFree(|stack|, calls);
      EventsAreLegal(stack, Text(|stack|, calls));
      IllegalEvent(stack, calls);
    }
  }

  /** The parser ends well with exactly the events of the calls that wrote the file. */
  predicate ReadsBack(moves: nat -> bool, stack: seq<string>, calls: seq<Call>) {
    var o := ParseIn(NoBuffer(moves), stack, Text(|stack|, calls));
    o.status == Ok && o.events == Events(stack, calls)
  }

  /**
   * The law of the two programs, for all calls and every system: a file reads back if and only if all calls are
   * legal and no growth behind a key moves the buffer.
   */
  lemma ProgramReadsBackExactly(moves: nat -> bool, stack: seq<string>, calls: seq<Call>)
    ensures ReadsBack(moves, stack, calls) <==> AllLegal(calls) && CallsStay(NoBuffer(moves), calls)
    ensures ReadsBack(moves, stack, calls) ==>
              ParseIn(NoBuffer(moves), stack, Text(|stack|, calls)).stack == FinalStack(stack, calls)
  {
    ParsesExactly(NoBuffer(moves), stack, Text(|stack|, calls));
    FileReadsBackExactly(stack, calls);
    if AllLegal(calls) {
      ProgramRoundTrip(NoBuffer(moves), stack, calls);
    }
  }

  /** A file reads back on every system if and only if all calls are legal and fit. */
  lemma ReadsBackAnywhereExactly(stack: seq<string>, calls: seq<Call>)
    ensures (forall moves: nat -> bool :: ReadsBack(moves, stack, calls)) <==> AllLegal(calls) && CallsFit(0, calls)
  {
    forall moves: nat -> bool
      ensures AllLegal(calls) && CallsFit(0, calls) ==> ReadsBack(moves, stack, calls)
    {
      ProgramReadsBackExactly(moves, stack, calls);
      if CallsFit(0, calls) {
        FittingCallsStay(NoBuffer(moves), calls);
      }
    }
    var always: nat -> bool := r => true;
    if ReadsBack(always, stack, calls) {
      ProgramReadsBackExactly(always, stack, calls);
      StayingCallsFit(NoBuffer(always), calls);
    }
  }

  /** Where growing never moves the buffer, it reads back if and only if all calls are legal. */
  lemma ReadsBackInPlaceExactly(moves: nat -> bool, stack: seq<string>, calls: seq<Call>)
    requires forall r :: !moves(r)
    ensures ReadsBack(moves, stack, calls) <==> AllLegal(calls)
  {
    ProgramReadsBackExactly(moves, stack, calls);
    CallsStayInPlace(NoBuffer(moves), calls);
  }

  // ---- trees ------------------------------------------------------------------------------------

  datatype Tree = Entry(key: CString, value: CString) | Section(name: CString, children: Forest)
  datatype Forest = Empty | Trees(first: Tree, rest: Forest)

  predicate LegalForest(f: Forest) {
    match f
    case Empty => true
    case Trees(Entry(key, value), rest) => Legal(Store(key, value)) && LegalForest(rest)
    case Trees(Section(name, children), rest) => SectionName(name) && LegalForest(children) && LegalForest(rest)
  }

  /** The output calls that store a forest. */
  function ForestCalls(f: Forest): seq<Call> {
    match f
    case Empty => []
    case Trees(Entry(key, value), rest) => [Store(key, value)] + ForestCalls(rest)
    case Trees(Section(name, children), rest) => [Open(name)] + ForestCalls(children) + [Close] + ForestCalls(rest)
  }

  /** The events of a forest, in order. */
  function ForestEvents(f: Forest): seq<Event> {
    match f
    case Empty => []
    case Trees(Entry(key, value), rest) => [Key(key, value)] + ForestEvents(rest)
    case Trees(Section(name, children), rest) =>
      [Begin(name)] + ForestEvents(children) + [End(name)] + ForestEvents(rest)
  }

  lemma {:induction false} EventsJoin(stack: seq<string>, a: seq<Call>, b: seq<Call>)
    ensures Events(stack, a + b) == Events(stack, a) + Events(FinalStack(stack, a), b)
    ensures FinalStack(stack, a + b) == FinalStack(FinalStack(stack, a), b)
    decreases |a|
  {
    if a == [] {
      assert a + b == b;
    } else {
      assert (a + b)[0] == a[0] && (a + b)[1..] == a[1..] + b;
      EventsJoin(StackAfter(stack, a[0]), a[1..], b);
    }
  }

  lemma {:induction false} ForestCallsLegal(f: Forest)
    requires LegalForest(f)
    ensures AllLegal(ForestCalls(f))
    decreases f
  {
    match f
    case Empty =>
    case Trees(Entry(key, value), rest) => ForestCallsLegal(rest);
    case Trees(Section(name, children), rest) =>
      ForestCallsLegal(children);
      ForestCallsLegal(rest);
  }

  lemma {:induction false} ForestEventsAre(stack: seq<string>, f: Forest)
    ensures Events(stack, ForestCalls(f)) == ForestEvents(f) && FinalStack(stack, ForestCalls(f)) == stack
    decreases f
  {
    match f
    case Empty =>
    case Trees(Entry(key, value), rest) =>
      ForestEventsAre(stack, rest);
      EntryEvents(stack, key, value, ForestCalls(rest));
    case Trees(Section(name, children), rest) =>
      ForestEventsAre([name] + stack, children);
      ForestEventsAre(stack, rest);
      SectionEvents(stack, name, ForestCalls(children), ForestCalls(rest));
  }

  lemma EntryEvents(stack: seq<string>, key: CString, value: CString, outer: seq<Call>)
    ensures Events(stack, [Store(key, value)] + outer) == [Key(key, value)] + Events(stack, outer)
    ensures FinalStack(stack, [Store(key, value)] + outer) == FinalStack(stack, outer)
  {
    assert ([Store(key, value)] + outer)[1..] == outer;
  }

  lemma SectionEvents(stack: seq<string>, name: CString, inner: seq<Call>, outer: seq<Call>)
    requires FinalStack([name] + stack, inner) == [name] + stack
    ensures Events(stack, [Open(name)] + inner + [Close] + outer) ==
            [Begin(name)] + Events([name] + stack, inner) + [End(name)] + Events(stack, outer)
    ensures FinalStack(stack, [Open(name)] + inner + [Close] + outer) == FinalStack(stack, outer)
  {
    var open, close := [Open(name)], [Close];
    assert open[1..] == [] && close[1..] == [];
    assert ([name] + stack)[1..] == stack;
    assert Events(stack, open) == [Begin(name)] && FinalStack(stack, open) == [name] + stack;
    assert Events([name] + stack, close) == [End(name)] && FinalStack([name] + stack, close) == stack;
    EventsJoin(stack, open + inner + close, outer);
    EventsJoin(stack, open + inner, close);
    EventsJoin(stack, open, inner);
  }

  /**
   * For every legal tree of sections and keys, the text means its events, with all sections closed, and the parser
   * yields them if and only if no growth behind a key moves the buffer.
   */
  lemma ForestRoundTrip(moves: nat -> bool, f: Forest)
    requires LegalForest(f)
    ensures Parse([], Text(0, ForestCalls(f))) == Outcome(Ok, ForestEvents(f), [])
    ensures ParseIn(NoBuffer(moves), [], Text(0, ForestCalls(f))) == Outcome(Ok, ForestEvents(f), []) <==>
            CallsStay(NoBuffer(moves), ForestCalls(f))
  {
    ForestEventsAre([], f);
    ForestCallsLegal(f);
    RoundTrip([], ForestCalls(f));
    ProgramRoundTrip(NoBuffer(moves), [], ForestCalls(f));
  }

  /**
   * The program: what class Output writes, class Parser reads back, exactly when all calls are legal and no growth
   * behind a key moves the buffer.
   */
  method WriteThenRead(calls: seq<Call>, moves: nat -> bool) returns (status: Status, log: seq<Event>)
    ensures status == Ok && log == Events([], calls) <==> AllLegal(calls) && CallsStay(NoBuffer(moves), calls)
  {
    var out := new Output();
    out.Perform(calls);
    assert out.out == "" + Text(0, calls) == Text(0, calls);
    ghost var o := ParseIn(NoBuffer(moves), [], out.out);
    ProgramReadsBackExactly(moves, [], calls);
    var parser := new Parser(out.out, moves);
    status := parser.ParseFile();
    log := parser.log;
    assert [] + o.events == o.events;
  }
}
