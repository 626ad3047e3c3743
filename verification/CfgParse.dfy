// The reader of am_mw/am_cfg/am_cfg_input.c. The functions say what one line and a whole file mean; class Parser
// reads them character by character. Reads and memory do not fail, and callbacks answer AM_SUCCESS.

module CfgParse {
  import opened CfgText
  import opened Seqs
  import opened Wrappers

  /** The current character, None at the end of the file, and what is left of the file. */
  datatype Cursor = Cursor(ch: Option<char>, rest: string)

  /** Text that was collected, and where reading stopped. */
  datatype Scan = Scan(text: string, cur: Cursor)

  function Step(rest: string): (c: Cursor)
    ensures Left(c) == |rest| && (c.ch.None? ==> c.rest == "")
  {
    if rest == "" then Cursor(None, "") else Cursor(Some(rest[0]), rest[1..])
  }

  /** How many characters there are from the current one on. */
  function Left(cur: Cursor): nat {
    |cur.rest| + if cur.ch.Some? then 1 else 0
  }

  function SkipSpace(rest: string): (c: Cursor)
    ensures Left(c) <= |rest|
    ensures if c.ch.Some? then !IsSpace(c.ch.value) else c.rest == ""
  {
    if rest != "" && IsSpace(rest[0]) then SkipSpace(rest[1..]) else Step(rest)
  }

  function SkipBlank(rest: string): (c: Cursor)
    ensures Left(c) <= |rest|
  {
    if rest != "" && IsSpace(rest[0]) && rest[0] != '\n' then SkipBlank(rest[1..]) else Step(rest)
  }

  predicate NameEnd(c: char) {
    c == '=' || c == '{' || c == '#' || c == '\n'
  }

  function ReadName(cur: Cursor): (s: Scan)
    ensures Left(s.cur) <= Left(cur)
    decreases Left(cur)
  {
    if cur.ch.None? || NameEnd(cur.ch.value) then Scan("", cur)
    else var more := ReadName(Step(cur.rest)); Scan([cur.ch.value] + more.text, more.cur)
  }

  function Unescaped(c: char): char {
    if c == 'n' then '\n'
    else if c == 'r' then '\r'
    else if c == 't' then '\t'
    else if c == 'v' then VT
    else if c == 'f' then FF
    else if c == 'a' then BEL
    else if c == 'b' then BS
    else c
  }

  function Before(text: string, s: Scan): Scan {
    Scan(text + s.text, s.cur)
  }

  /**
   * A quoted value, up to the end of the line. A backslash at the end of a line takes the first character of the
   * next one, whatever it is, even the end of the file.
   */
  function ReadQuoted(rest: string): (s: Scan)
    ensures Left(s.cur) <= |rest|
    decreases |rest|
  {
    if rest == "" || rest[0] == '\n' then Scan("", Step(rest))
    else if rest[0] != '\\' then Before([rest[0]], ReadQuoted(rest[1..]))
    else if |rest| == 1 then Scan("", Cursor(None, ""))
    else if rest[1] != '\n' then Before([Unescaped(rest[1])], ReadQuoted(rest[2..]))
    else if |rest| == 2 then Scan([EOF_BYTE], Cursor(None, ""))
    else Before([rest[2]], ReadQuoted(rest[3..]))
  }

  function ReadTail(cur: Cursor): (s: Scan)
    ensures Left(s.cur) <= Left(cur)
    decreases Left(cur)
  {
    if cur.ch.None? || cur.ch.value == '\n' then Scan("", cur) else Before([cur.ch.value], ReadTail(Step(cur.rest)))
  }

  /** The character that (char)ch stores. */
  function Stored(ch: Option<char>): char {
    if ch.None? then EOF_BYTE else ch.value
  }

  /** An unquoted value: its first character is taken unseen, so that an empty value swallows the next line. */
  function ReadPlain(cur: Cursor): (s: Scan)
    ensures Left(s.cur) <= Left(cur)
  {
    Before([Stored(cur.ch)], ReadTail(Step(cur.rest)))
  }

  function SkipComment(cur: Cursor): (c: Cursor)
    ensures Left(c) <= Left(cur)
    decreases Left(cur)
  {
    if cur.ch.None? || cur.ch.value == '\n' then cur else SkipComment(Step(cur.rest))
  }

  /**
   * What reading a line leads to: events for the callbacks, or a syntax error, or a fault. A fault is a nameless
   * section, whose null name is duplicated, or a nameless key with a blank quoted value, where the character
   * before the buffer is read.
   */
  datatype Line = Line(events: seq<Event>, stack: seq<string>, rest: string, end: bool) | SyntaxError | Fault

  function FinishLine(stack: seq<string>, key: string, value: string, cur: Cursor): Line {
    var events := if key == "" && value == "" then [] else [Key(AsCString(key), AsCString(value))];
    var last := SkipComment(cur);
    Line(events, stack, last.rest, last.ch.None?)
  }

  predicate Quoted(rest: string) {
    SkipBlank(rest).ch == Some('"')
  }

  function ValueScan(rest: string): (s: Scan)
    ensures Left(s.cur) <= |rest|
  {
    var first := SkipBlank(rest);
    if Quoted(rest) then ReadQuoted(first.rest) else ReadPlain(first)
  }

  /** A quoted value must end in a quote, which is not part of it. */
  function JudgeValue(stack: seq<string>, key: string, quoted: bool, text: string, cur: Cursor): (l: Line)
    ensures l.Line? ==> |l.rest| <= Left(cur)
  {
    if !quoted then FinishLine(stack, key, text, cur)
    else if text == "" then (if key == "" then Fault else SyntaxError)
    else if text[|text| - 1] != '"' then SyntaxError
    else FinishLine(stack, key, text[..|text| - 1], cur)
  }

  function ReadValue(stack: seq<string>, key: string, rest: string): (l: Line)
    ensures l.Line? ==> |l.rest| <= |rest|
  {
    var scan := ValueScan(rest);
    JudgeValue(stack, key, Quoted(rest), TrimEnd(scan.text), scan.cur)
  }

  /** A line behind its name: a section with the name as it stands, or a key without trailing space. */
  function NamedLine(stack: seq<string>, name: Scan): (l: Line)
    ensures l.Line? ==> |l.rest| <= Left(name.cur)
  {
    var key := TrimEnd(name.text);
    if name.cur.ch == Some('{') then
      if name.text == "" then Fault
      else Line([Begin(AsCString(name.text))], [AsCString(name.text)] + stack, name.cur.rest, false)
    else if name.cur.ch == Some('=') then ReadValue(stack, key, name.cur.rest)
    else FinishLine(stack, key, "", name.cur)
  }

  function ReadLine(stack: seq<string>, input: string): (l: Line)
    ensures l.Line? && !l.end ==> |l.rest| < |input|
  {
    var first := SkipSpace(input);
    if first.ch.None? then Line([], stack, "", true)
    else if first.ch.value == '}' then
      if stack == [] then SyntaxError else Line([End(stack[0])], stack[1..], first.rest, false)
    else
      NamedLineConsumes(stack, first);
      NamedLine(stack, ReadName(first))
  }

  /** A named line that does not end the file has read at least its first character. */
  lemma NamedLineConsumes(stack: seq<string>, first: Cursor)
    requires first.ch.Some?
    ensures var l := NamedLine(stack, ReadName(first)); l.Line? && !l.end ==> |l.rest| < Left(first)
  {
  }

  // ---- the growing buffer -----------------------------------------------------------------------

  function Max(a: nat, b: nat): nat {
    if a > b then a else b
  }

  /** cfg_resize_buffer, asked for one character more than fits. */
  function Larger(room: nat): nat {
    Max(Max(room + 1, 2 * room), 64)
  }

  /**
   * The parser's buffer: its room and the allocation it is in. `moves(r)` is the system's answer when the buffer grows
   * from room r, whether realloc moves it. The room only grows, so the system is asked at most once for each room
   * and may answer as it likes.
   */
  datatype Memory = Memory(moves: nat -> bool, room: nat, block: nat)

  /** No buffer yet. */
  function NoBuffer(moves: nat -> bool): Memory {
    Memory(moves, 0, 0)
  }

  function Enlarged(m: Memory): Memory {
    Memory(m.moves, Larger(m.room), if m.moves(m.room) then m.block + 1 else m.block)
  }

  /** The buffer once n characters have been put into it, one at a time. */
  function Grown(m: Memory, n: nat): (r: Memory)
    ensures r.moves == m.moves && r.room >= m.room && r.room >= n && r.block >= m.block && (n <= m.room ==> r == m)
    decreases n - m.room
  {
    if n <= m.room then m else Grown(Enlarged(m), n)
  }

  /** Its room alone does not depend on the system's answers. */
  function RoomFor(room: nat, n: nat): (r: nat)
    ensures r >= room && r >= n && (n <= room ==> r == room)
    decreases n - room
  {
    if n <= room then room else RoomFor(Larger(room), n)
  }

  lemma {:induction false} RoomGrown(m: Memory, n: nat)
    ensures Grown(m, n).room == RoomFor(m.room, n)
    decreases n - m.room
  {
    if n > m.room {
      RoomGrown(Enlarged(m), n);
    }
  }

  /** A buffer of this room is moved before n characters fit. */
  predicate MovedOn(moves: nat -> bool, room: nat, n: nat)
    decreases n - room
  {
    n > room && (moves(room) || MovedOn(moves, Larger(room), n))
  }

  lemma {:induction false} MovedExactly(m: Memory, n: nat)
    ensures Grown(m, n).block != m.block <==> MovedOn(m.moves, m.room, n)
    decreases n - m.room
  {
    if n > m.room {
      MovedExactly(Enlarged(m), n);
    }
  }

  /** Growing in two steps is growing to the larger of both. */
  lemma {:induction false} GrownTwice(m: Memory, a: nat, b: nat, n: nat)
    requires n == Max(a, b)
    ensures Grown(Grown(m, a), b) == Grown(m, n)
    decreases a - m.room
  {
    if a > m.room {
      GrownTwice(Enlarged(m), a, b, n);
    }
  }

  /** The key, or value, as it stands in the buffer. */
  function StringBytes(s: string): string {
    if s == "" then "" else s + [NUL]
  }

  /** The characters that reading a name needs room for: as read, and stripped with its NUL. */
  function NameRoom(name: string): nat {
    Max(|name|, |StringBytes(TrimEnd(name))|)
  }

  /** What a stripped value needs; the quote makes place for the NUL. */
  function StrippedRoom(quoted: bool, text: string): nat {
    if quoted then |text| else |StringBytes(text)|
  }

  function ValueRoom(rest: string): nat {
    var text := ValueScan(rest).text;
    Max(|text|, StrippedRoom(Quoted(rest), TrimEnd(text)))
  }

  /** The characters that need room while a value is read: key and value with their NULs, or none without '='. */
  function KeyedRoom(name: Scan): nat {
    if name.cur.ch == Some('=') then |StringBytes(TrimEnd(name.text))| + ValueRoom(name.cur.rest) else 0
  }

  /** The buffer after a named line. */
  function NamedMemory(m: Memory, name: Scan): Memory {
    if name.cur.ch == Some('{') then Grown(m, |name.text| + 1)
    else Grown(Grown(m, NameRoom(name.text)), KeyedRoom(name))
  }

  /** The buffer moves while the key points into it. */
  predicate NamedMoves(m: Memory, name: Scan) {
    var withKey := Grown(m, NameRoom(name.text));
    name.cur.ch != Some('{') && TrimEnd(name.text) != "" && Grown(withKey, KeyedRoom(name)).block != withKey.block
  }

  predicate IsNamed(first: Cursor) {
    first.ch.Some? && first.ch.value != '}'
  }

  function LineMemory(m: Memory, input: string): Memory {
    var first := SkipSpace(input);
    if IsNamed(first) then NamedMemory(m, ReadName(first)) else m
  }

  predicate Moves(m: Memory, input: string) {
    var first := SkipSpace(input);
    IsNamed(first) && NamedMoves(m, ReadName(first))
  }

  /** A line whose key dangles when it is handed over is a fault. */
  function Moved(l: Line, moved: bool): Line {
    if l.Line? && moved then Fault else l
  }

  /** A line as the parser reads it into its buffer. */
  function LineIn(m: Memory, stack: seq<string>, input: string): (l: Line)
    ensures l.Line? && !l.end ==> |l.rest| < |input|
  {
    Moved(ReadLine(stack, input), Moves(m, input))
  }

  datatype Status = Ok | Syntax | Crash

  /** The result of reading a file from a stack of open sections: an unclosed section is no error. */
  datatype Outcome = Outcome(status: Status, events: seq<Event>, stack: seq<string>)

  /** What a text means. */
  function Parse(stack: seq<string>, input: string): Outcome
    decreases |input|
  {
    match ReadLine(stack, input)
    case SyntaxError => Outcome(Syntax, [], stack)
    case Fault => Outcome(Crash, [], stack)
    case Line(events, after, rest, end) =>
      if end then Outcome(Ok, events, after)
      else var more := Parse(after, rest); Outcome(more.status, events + more.events, more.stack)
  }

  /** What the parser does with it. */
  function ParseIn(m: Memory, stack: seq<string>, input: string): Outcome
    decreases |input|
  {
    match LineIn(m, stack, input)
    case SyntaxError => Outcome(Syntax, [], stack)
    case Fault => Outcome(Crash, [], stack)
    case Line(events, after, rest, end) =>
      if end then Outcome(Ok, events, after)
      else
        var more := ParseIn(LineMemory(m, input), after, rest);
        Outcome(more.status, events + more.events, more.stack)
  }

  /** No key dangles as long as lines are read. */
  predicate Steady(m: Memory, stack: seq<string>, input: string)
    decreases |input|
  {
    match ReadLine(stack, input)
    case Line(_, after, rest, end) =>
      !Moves(m, input) && (end || Steady(LineMemory(m, input), after, rest))
    case _ => true
  }

  // ---- what holds of every file -----------------------------------------------------------------

  /**
   * The parser does what the text means exactly when no key dangles; otherwise it crashes, behind events
   * that are the first ones of the text.
   */
  lemma {:induction false} ParsesExactly(m: Memory, stack: seq<string>, input: string)
    ensures Steady(m, stack, input) ==> ParseIn(m, stack, input) == Parse(stack, input)
    ensures !Steady(m, stack, input) ==>
              && ParseIn(m, stack, input).status == Crash
              && ParseIn(m, stack, input).events <= Parse(stack, input).events
    decreases |input|
  {
    match ReadLine(stack, input)
    case Line(events, after, rest, end) =>
      if !end && !Moves(m, input) {
        ParsesExactly(LineMemory(m, input), after, rest);
      }
    case _ =>
  }

  /**
   * For every input, however it ends: begins and ends are nested, each end carries the innermost open name, and
   * the section stack is exactly the begins without an end.
   */
  lemma {:induction false} EventsNest(m: Memory, stack: seq<string>, input: string)
    ensures var o := ParseIn(m, stack, input); Replay(stack, o.events) == Nested(o.stack)
    decreases |input|
  {
    match LineIn(m, stack, input)
    case Line(events, after, rest, end) =>
      LineNests(stack, input);
      if !end {
        EventsNest(LineMemory(m, input), after, rest);
        ReplayJoin(stack, events, ParseIn(LineMemory(m, input), after, rest).events);
      }
    case _ =>
  }

  lemma LineNests(stack: seq<string>, input: string)
    requires ReadLine(stack, input).Line?
    ensures var l := ReadLine(stack, input); Replay(stack, l.events) == Nested(l.stack)
  {
    var first := SkipSpace(input);
    if first.ch.Some? && first.ch.value != '}' {
      NamedLineNests(stack, ReadName(first));
    }
  }

  lemma NamedLineNests(stack: seq<string>, name: Scan)
    requires NamedLine(stack, name).Line?
    ensures var l := NamedLine(stack, name); Replay(stack, l.events) == Nested(l.stack)
  {
    var l := NamedLine(stack, name);
    assert |l.events| <= 1 && (l.events != [] ==> l.events[1..] == []);
  }

  /** A line starting with '}' is accepted exactly when a section is open, and closes the innermost one. */
  lemma CloseNeedsOpen(stack: seq<string>, blank: string, rest: string)
    requires forall i :: 0 <= i < |blank| ==> IsSpace(blank[i])
    ensures var l := ReadLine(stack, blank + "}" + rest);
            if stack == [] then l == SyntaxError else l == Line([End(stack[0])], stack[1..], rest, false)
  {
    SkipsSpace(blank, "}" + rest);
    assert blank + "}" + rest == blank + ("}" + rest);
  }

  lemma {:induction false} SkipsSpace(blank: string, rest: string)
    requires forall i :: 0 <= i < |blank| ==> IsSpace(blank[i])
    ensures SkipSpace(blank + rest) == SkipSpace(rest)
  {
    if blank == "" {
      assert blank + rest == rest;
    } else {
      assert (blank + rest)[1..] == blank[1..] + rest;
      SkipsSpace(blank[1..], rest);
    }
  }

  /**
   * A line with '=' behind a name, where the buffer, once it holds the name, is moved on the way to room for the
   * key and the value, each as it is read and as it is stripped, with a NUL.
   */
  predicate KeyDangles(m: Memory, first: Cursor) {
    && first.ch.Some? && first.ch.value != '}' && !NameEnd(first.ch.value)
    && DanglesBehind(m, ReadName(first))
  }

  predicate DanglesBehind(m: Memory, name: Scan) {
    name.cur.ch == Some('=') && MovedOn(m.moves, Grown(m, NameRoom(name.text)).room, KeyedRoom(name))
  }

  /**
   * The parser crashes on a line exactly when it opens a section without a name, or when its name is empty and
   * its value starts with a quote and is blank after it, or when it is read as a key with a value and the
   * buffer is moved to make room for the value.
   */
  lemma FaultsExactly(m: Memory, stack: seq<string>, input: string)
    ensures LineIn(m, stack, input) == Fault <==>
              var first := SkipSpace(input);
              || first.ch == Some('{')
              || (first.ch == Some('=') && SkipBlank(first.rest).ch == Some('"')
                  && forall c :: c in ReadQuoted(SkipBlank(first.rest).rest).text ==> IsSpace(c))
              || (ReadLine(stack, input).Line? && KeyDangles(m, first))
  {
    TextFaults(stack, input);
    MovesExactly(m, input);
  }

  lemma MovesExactly(m: Memory, input: string)
    ensures Moves(m, input) <==> KeyDangles(m, SkipSpace(input))
  {
    var first := SkipSpace(input);
    if IsNamed(first) {
      NameStart(first);
      NamedMovesExactly(m, ReadName(first));
    }
  }

  lemma NamedMovesExactly(m: Memory, name: Scan)
    ensures NamedMoves(m, name) <==> TrimEnd(name.text) != "" && DanglesBehind(m, name)
  {
    if name.cur.ch == Some('=') {
      MovedExactly(Grown(m, NameRoom(name.text)), KeyedRoom(name));
    } else {
      NothingMoves(m, name);
    }
  }

  lemma NamedNeeds(m: Memory, name: Scan, a: nat, n: nat)
    requires name.cur.ch == Some('=') && TrimEnd(name.text) != "" && NameRoom(name.text) == a && KeyedRoom(name) == n
    ensures NamedMemory(m, name) == Grown(Grown(m, a), n)
    ensures NamedMoves(m, name) <==> MovedOn(m.moves, Grown(m, a).room, n)
  {
    MovedExactly(Grown(m, a), n);
  }

  lemma NothingMoves(m: Memory, name: Scan)
    requires TrimEnd(name.text) == "" || name.cur.ch != Some('=')
    ensures !NamedMoves(m, name)
  {
  }

  /** The faults that the text alone decides. */
  lemma TextFaults(stack: seq<string>, input: string)
    ensures ReadLine(stack, input) == Fault <==>
              var first := SkipSpace(input);
              || first.ch == Some('{')
              || (first.ch == Some('=') && SkipBlank(first.rest).ch == Some('"')
                  && forall c :: c in ReadQuoted(SkipBlank(first.rest).rest).text ==> IsSpace(c))
  {
    var first := SkipSpace(input);
    if first.ch.Some? {
      var name := ReadName(first);
      assert name.text == "" <==> NameEnd(first.ch.value);
      NameStart(first);
      if first.ch == Some('=') && SkipBlank(first.rest).ch == Some('"') {
        TrimsToNothing(ReadQuoted(SkipBlank(first.rest).rest).text);
      }
    }
  }

  lemma NameStart(first: Cursor)
    requires first.ch.Some? && !IsSpace(first.ch.value)
    ensures TrimEnd(ReadName(first).text) == "" <==> NameEnd(first.ch.value)
  {
    var text := ReadName(first).text;
    if text != "" {
      assert text[0] == first.ch.value;
    }
  }

  lemma TrimsToNothing(s: string)
    ensures TrimEnd(s) == "" <==> forall c :: c in s ==> IsSpace(c)
  {
    var r := TrimEnd(s);
    if r != "" {
      assert r[|r| - 1] == s[|r| - 1];
    }
  }

  // ---- the parser -------------------------------------------------------------------------------

  /** A pointer into the buffer: the allocation and the place. It dangles once the buffer is in another allocation. */
  datatype Pointer = Pointer(block: nat, at: nat)

  class Parser {
    var rest: string          // what is left of the file
    var stack: seq<string>    // sec_stack, top first
    var buffer: seq<char>     // buffer[..leng]
    var mem: Memory           // the buffer as an allocation
    var log: seq<Event>       // the callbacks made

    constructor (file: string, moves: nat -> bool)
      ensures rest == file && stack == [] && log == [] && mem == NoBuffer(moves)
    {
      rest, stack, buffer, mem, log := file, [], [], NoBuffer(moves), [];
    }

    /** What is in the buffer has room there. */
    ghost predicate Valid()
      reads `buffer, `mem
    {
      |buffer| <= mem.room
    }

    /** cfg_resize_buffer. */
    method Resize(n: nat)
      requires n <= mem.room + 1
      modifies this`mem
      ensures mem == Grown(old(mem), n)
    {
      if n <= mem.room {
        return;
      }
      var size := Max(Max(n, mem.room * 2), 64);
      var moved := mem.moves(mem.room);
      mem := Memory(mem.moves, size, if moved then mem.block + 1 else mem.block);
    }

    method Getc() returns (ch: Option<char>)
      modifies this`rest
      ensures Cursor(ch, rest) == Step(old(rest))
    {
      if rest == "" {
        return None;
      }
      ch := Some(rest[0]);
      rest := rest[1..];
    }

    method Putc(ch: Option<char>)
      requires Valid()
      modifies this`buffer, this`mem
      ensures Valid() && buffer == old(buffer) + [Stored(ch)] && mem == Grown(old(mem), |buffer|)
    {
      Resize(|buffer| + 1);
      buffer := buffer + [if ch.Some? then ch.value else EOF_BYTE];
    }

    /** cfg_putc in a loop that started with the given buffer. */
    method Append(ch: Option<char>, ghost m: Memory)
      requires Valid() && mem == Grown(m, |buffer|)
      modifies this`buffer, this`mem
      ensures Valid() && buffer == old(buffer) + [Stored(ch)] && mem == Grown(m, |buffer|)
    {
      GrownTwice(m, |buffer|, |buffer| + 1, |buffer| + 1);
      Putc(ch);
    }

    /** cfg_get_str: None is the null pointer, otherwise the string starts at `begin` and ends at a NUL. */
    method GetStr(begin: nat, ghost n: nat) returns (at: Option<Pointer>)
      requires Valid() && n == if |buffer| == begin then begin else |buffer| + 1
      modifies this`buffer, this`mem
      ensures Valid() && |buffer| == n && mem == Grown(old(mem), n)
      ensures |old(buffer)| == begin ==> at == None && buffer == old(buffer)
      ensures |old(buffer)| != begin ==> at == Some(Pointer(mem.block, begin)) && buffer == old(buffer) + [NUL]
    {
      if |buffer| == begin {
        return None;
      }
      Putc(Some(NUL));
      return Some(Pointer(mem.block, begin));
    }

    /** The loops that strip trailing space from the buffer, down to `from`. */
    method Trim(from: nat)
      requires Valid() && from <= |buffer|
      modifies this`buffer
      ensures Valid() && buffer == old(buffer)[..from] + TrimEnd(old(buffer)[from..])
    {
      ghost var text := buffer[from..];
      var leng := |buffer|;
      while leng > from && IsSpace(buffer[leng - 1])
        invariant from <= leng <= |buffer| && buffer == old(buffer)
        invariant TrimEnd(text[..leng - from]) == TrimEnd(text)
      {
        assert text[leng - from - 1] == buffer[leng - 1];
        TrimStep(text, leng - from);
        leng := leng - 1;
      }
      Trimmed(buffer, from, leng);
      buffer := buffer[..leng];
    }

    method EatSpace() returns (ch: Option<char>)
      modifies this`rest
      ensures Cursor(ch, rest) == SkipSpace(old(rest))
    {
      ch := Getc();
      while ch.Some? && IsSpace(ch.value)
        invariant (if ch.Some? && IsSpace(ch.value) then SkipSpace(rest) else Cursor(ch, rest)) == SkipSpace(old(rest))
        decreases Left(Cursor(ch, rest))
      {
        ch := Getc();
      }
    }

    method EatBlank() returns (ch: Option<char>)
      modifies this`rest
      ensures Cursor(ch, rest) == SkipBlank(old(rest))
    {
      ch := Getc();
      while ch.Some? && IsSpace(ch.value) && ch.value != '\n'
        invariant (if ch.Some? && IsSpace(ch.value) && ch.value != '\n' then SkipBlank(rest) else Cursor(ch, rest))
                  == SkipBlank(old(rest))
        decreases Left(Cursor(ch, rest))
      {
        ch := Getc();
      }
    }

    method NameLoop(first: Option<char>, ghost n: nat) returns (ch: Option<char>)
      requires Valid() && n == |buffer| + |ReadName(Cursor(first, rest)).text|
      modifies this`rest, this`buffer, this`mem
      ensures Valid() && |buffer| == n && mem == Grown(old(mem), n)
      ensures var s := ReadName(Cursor(first, old(rest)));
              buffer == old(buffer) + s.text && Cursor(ch, rest) == s.cur
    {
      ch := first;
      ghost var all := ReadName(Cursor(ch, rest));
      while ch.Some? && !NameEnd(ch.value)
        invariant var s := ReadName(Cursor(ch, rest)); buffer + s.text == old(buffer) + all.text && s.cur == all.cur
        invariant Valid() && mem == Grown(old(mem), |buffer|)
        decreases Left(Cursor(ch, rest))
      {
        Append(ch, old(mem));
        ch := Getc();
      }
    }

    method QuotedLoop(ghost n: nat) returns (ch: Option<char>)
      requires Valid() && n == |buffer| + |ReadQuoted(rest).text|
      modifies this`rest, this`buffer, this`mem
      ensures Valid() && |buffer| == n && mem == Grown(old(mem), n)
      ensures var s := ReadQuoted(old(rest)); buffer == old(buffer) + s.text && Cursor(ch, rest) == s.cur
    {
      ghost var all := Before(buffer, ReadQuoted(rest));
      while true
        invariant Before(buffer, ReadQuoted(rest)) == all
        invariant Valid() && mem == Grown(old(mem), |buffer|)
        decreases |rest|
      {
        ghost var before := buffer;
        var stop;
        ch, stop := QuotedChar();
        if stop {
          assert buffer + [] == buffer;
          break;
        }
        Append(ch, old(mem));
        Regroup(before, [Stored(ch)], ReadQuoted(rest).text);
      }
    }

    /** The reads of one round of the quoted loop. */
    method QuotedChar() returns (ch: Option<char>, stop: bool)
      modifies this`rest
      ensures stop ==> ReadQuoted(old(rest)) == Scan("", Cursor(ch, rest))
      ensures !stop ==> ReadQuoted(old(rest)) == Before([Stored(ch)], ReadQuoted(rest)) && |rest| < |old(rest)|
    {
      ch := Getc();
      if ch.None? || ch.value == '\n' {
        return ch, true;
      }
      if ch.value == '\\' {
        ch := Getc();
        if ch.None? {
          return ch, true;
        }
        if ch.value == '\n' {
          ch := Getc();
          assert rest == if |old(rest)| > 2 then old(rest)[3..] else "";
        } else {
          ch := Some(Unescaped(ch.value));
          assert rest == old(rest)[2..];
        }
      }
      stop := false;
    }

    method PlainLoop(first: Option<char>, ghost n: nat) returns (ch: Option<char>)
      requires Valid() && n == |buffer| + |ReadPlain(Cursor(first, rest)).text|
      modifies this`rest, this`buffer, this`mem
      ensures Valid() && |buffer| == n && mem == Grown(old(mem), n)
      ensures var s := ReadPlain(Cursor(first, old(rest)));
              buffer == old(buffer) + s.text && Cursor(ch, rest) == s.cur
    {
      ghost var m, before := mem, buffer;
      Putc(first);
      ch := Getc();
      ghost var more := ReadTail(Cursor(ch, rest)).text;
      Regroup(before, [Stored(first)], more);
      ch := TailLoop(ch, m);
    }

    method TailLoop(first: Option<char>, ghost m: Memory) returns (ch: Option<char>)
      requires Valid() && mem == Grown(m, |buffer|)
      modifies this`rest, this`buffer, this`mem
      ensures Valid() && mem == Grown(m, |buffer|)
      ensures var s := ReadTail(Cursor(first, old(rest)));
              buffer == old(buffer) + s.text && Cursor(ch, rest) == s.cur
    {
      ch := first;
      ghost var all := ReadTail(Cursor(ch, rest));
      while ch.Some? && ch.value != '\n'
        invariant Before(buffer, ReadTail(Cursor(ch, rest))) == Before(old(buffer), all)
        invariant Valid() && mem == Grown(m, |buffer|)
        decreases Left(Cursor(ch, rest))
      {
        ghost var before := buffer;
        Append(ch, m);
        ch := Getc();
        Regroup(before, [buffer[|buffer| - 1]], ReadTail(Cursor(ch, rest)).text);
      }
    }

    method EatComment(first: Option<char>) returns (end: bool)
      modifies this`rest
      ensures var c := SkipComment(Cursor(first, old(rest))); rest == c.rest && (end <==> c.ch.None?)
    {
      var ch := first;
      while ch.Some? && ch.value != '\n'
        invariant SkipComment(Cursor(ch, rest)) == SkipComment(Cursor(first, old(rest)))
        decreases Left(Cursor(ch, rest))
      {
        ch := Getc();
      }
      return ch.None?;
    }

    /** What the key callback sees at a place in the buffer; the null pointer becomes the empty string. */
    function StringAt(at: Option<Pointer>): CString
      requires at.Some? ==> at.value.at <= |buffer|
      reads this`buffer
    {
      if at.Some? then AsCString(buffer[at.value.at..]) else ""
    }

    /** What a method that reads a line has done when it answers `status` and `end`. */
    ghost predicate Did(l: Line, status: Status, end: bool, logBefore: seq<Event>, stackBefore: seq<string>)
      reads this
    {
      match l
      case Line(events, after, left, last) =>
        status == Ok && end == last && log == logBefore + events && stack == after && rest == left
      case SyntaxError => status == Syntax && log == logBefore && stack == stackBefore
      case Fault => status == Crash && log == logBefore && stack == stackBefore
    }

    /**
     * The key callback and the rest of the line, which come to l; a key that points into an earlier allocation
     * dangles.
     */
    method FinishKey(key: Option<Pointer>, value: Option<Pointer>, ch: Option<char>, ghost k: string, ghost v: string,
                     ghost l: Line, ghost moved: bool)
      returns (status: Status, end: bool)
      requires key.Some? ==> key.value.at <= |buffer|
      requires value.Some? ==> value.value.at <= |buffer| && value.value.block == mem.block
      requires (key.Some? <==> k != "") && (value.Some? <==> v != "")
      requires StringAt(key) == AsCString(k) && StringAt(value) == AsCString(v)
      requires l == FinishLine(stack, k, v, Cursor(ch, rest)) && moved == (key.Some? && key.value.block != mem.block)
      modifies this`rest, this`log
      ensures Did(Moved(l, moved), status, end, old(log), stack)
    {
      if key.Some? && key.value.block != mem.block {
        return Crash, false;
      }
      if key.Some? || value.Some? {
        log := log + [Key(StringAt(key), StringAt(value))];
      }
      end := EatComment(ch);
      status := Ok;
    }

    /** Reads a value up to the end of its line and strips it; n characters need room for that. */
    method ScanValue(ghost n: nat) returns (quot: bool, ch: Option<char>)
      requires Valid() && n == |buffer| + |ValueScan(rest).text|
      modifies this`rest, this`buffer, this`mem
      ensures Valid() && mem == Grown(old(mem), n)
      ensures quot == Quoted(old(rest)) && Cursor(ch, rest) == ValueScan(old(rest)).cur
      ensures buffer == old(buffer) + TrimEnd(ValueScan(old(rest)).text)
    {
      ghost var text := ValueScan(rest).text;
      ch := EatBlank();
      var vpos := |buffer|;
      quot := ch == Some('"');
      if quot {
        ch := QuotedLoop(n);
      } else {
        ch := PlainLoop(ch, n);
      }
      assert buffer[vpos..] == text && buffer[..vpos] == old(buffer);
      Trim(vpos);
    }

    /**
     * The part of cfg_read_line behind '='. The buffer holds the key and its NUL, or nothing; l is what the line
     * comes to, n the characters that need room and `moved` whether the key dangles then.
     */
    method ValuePart(key: Option<Pointer>, ghost k: string, ghost l: Line, ghost n: nat, ghost moved: bool)
      returns (status: Status, end: bool)
      requires Valid() && key == (if k == "" then None else Some(Pointer(mem.block, 0))) && buffer == StringBytes(k)
      requires l == ReadValue(stack, k, rest) && n == |buffer| + ValueRoom(rest)
      requires moved == (k != "" && Grown(mem, n).block != mem.block)
      modifies this`rest, this`buffer, this`mem, this`log
      ensures Did(Moved(l, moved), status, end, old(log), stack) && (status == Ok ==> mem == Grown(old(mem), n))
    {
      var vpos := |buffer|;
      ghost var text := TrimEnd(ValueScan(rest).text);
      ghost var a, b := vpos + |ValueScan(rest).text|, vpos + StrippedRoom(Quoted(rest), text);
      GrownTwice(mem, a, b, n);
      var quot, ch := ScanValue(a);
      status, end := CheckValue(key, vpos, quot, ch, k, text, l, b, moved);
    }

    /** The checks on a stripped value and the callback; n characters need room for it. */
    method CheckValue(key: Option<Pointer>, vpos: nat, quot: bool, ch: Option<char>, ghost k: string,
                      ghost text: string, ghost l: Line, ghost n: nat, ghost moved: bool)
      returns (status: Status, end: bool)
      requires Valid() && (key.Some? <==> k != "") && (key.Some? ==> key.value.at == 0)
      requires vpos == |StringBytes(k)| && buffer == StringBytes(k) + text
      requires l == JudgeValue(stack, k, quot, text, Cursor(ch, rest)) && n == vpos + StrippedRoom(quot, text)
      requires moved == (key.Some? && key.value.block != Grown(mem, n).block)
      modifies this`rest, this`buffer, this`mem, this`log
      ensures Did(Moved(l, moved), status, end, old(log), stack) && (status == Ok ==> mem == Grown(old(mem), n))
    {
      if !quot {
        status, end := TakeValue(key, vpos, ch, k, text, l, n, moved);
        return;
      }
      if |buffer| == 0 {
        return Crash, false;
      }
      LastByte(k, text);
      if buffer[|buffer| - 1] != '"' {
        return Syntax, false;
      }
      status, end := TakeQuoted(key, vpos, ch, k, text[..|text| - 1], l, n, moved);
    }

    /** A value that ends in its quote; there is room for the NUL that takes the place of the quote. */
    method TakeQuoted(key: Option<Pointer>, vpos: nat, ch: Option<char>, ghost k: string, ghost v: string,
                      ghost l: Line, ghost n: nat, ghost moved: bool)
      returns (status: Status, end: bool)
      requires Valid() && (key.Some? <==> k != "") && (key.Some? ==> key.value.at == 0)
      requires vpos == |StringBytes(k)| && |buffer| == n == vpos + |v| + 1
      requires buffer[..|buffer| - 1] == StringBytes(k) + v
      requires l == FinishLine(stack, k, v, Cursor(ch, rest)) && moved == (key.Some? && key.value.block != mem.block)
      modifies this`rest, this`buffer, this`mem, this`log
      ensures Did(Moved(l, moved), status, end, old(log), stack) && (status == Ok ==> mem == Grown(old(mem), n))
    {
      buffer := buffer[..|buffer| - 1];
      status, end := TakeValue(key, vpos, ch, k, v, l, vpos + |StringBytes(v)|, moved);
    }

    method TakeValue(key: Option<Pointer>, vpos: nat, ch: Option<char>, ghost k: string, ghost v: string,
                     ghost l: Line, ghost n: nat, ghost moved: bool)
      returns (status: Status, end: bool)
      requires Valid() && (key.Some? <==> k != "") && (key.Some? ==> key.value.at == 0)
      requires vpos == |StringBytes(k)| && buffer == StringBytes(k) + v
      requires l == FinishLine(stack, k, v, Cursor(ch, rest)) && n == vpos + |StringBytes(v)|
      requires moved == (key.Some? && key.value.block != Grown(mem, n).block)
      modifies this`rest, this`buffer, this`mem, this`log
      ensures Did(Moved(l, moved), status, end, old(log), stack) && mem == Grown(old(mem), n)
    {
      var value := GetStr(vpos, n);
      StringsInBuffer(k, v);
      status, end := FinishKey(key, value, ch, k, v, l, moved);
    }

    /** cfg_push_sec and the begin callback. */
    method OpenSection(ghost name: string) returns (status: Status)
      requires Valid() && buffer == name
      modifies this`buffer, this`mem, this`stack, this`log
      ensures Did(NamedLine(old(stack), Scan(name, Cursor(Some('{'), rest))), status, false, old(log), old(stack))
      ensures status == Ok ==> mem == Grown(old(mem), |name| + 1)
    {
      if |buffer| == 0 {
        return Crash;
      }
      var at := GetStr(0, |name| + 1);
      CStringStops(name, "");
      assert buffer[0..] == name + [NUL] + "";
      stack := [StringAt(at)] + stack;
      log := log + [Begin(stack[0])];
      return Ok;
    }

    /** Strips the name in the buffer and takes the pointer to it; n characters need room for it. */
    method TakeKey(ghost name: string, ghost n: nat) returns (key: Option<Pointer>)
      requires Valid() && buffer == name && n == |StringBytes(TrimEnd(name))|
      modifies this`buffer, this`mem
      ensures Valid() && buffer == StringBytes(TrimEnd(name)) && mem == Grown(old(mem), n)
      ensures key == if TrimEnd(name) == "" then None else Some(Pointer(mem.block, 0))
    {
      assert name[0..] == name;
      Trim(0);
      assert buffer == TrimEnd(name);
      key := GetStr(0, n);
    }

    /** A key without '='. */
    method NoValue(key: Option<Pointer>, ch: Option<char>, ghost k: string) returns (status: Status, end: bool)
      requires Valid() && key == (if k == "" then None else Some(Pointer(mem.block, 0))) && buffer == StringBytes(k)
      modifies this`rest, this`log
      ensures Did(FinishLine(stack, k, "", Cursor(ch, old(rest))), status, end, old(log), stack) && status == Ok
    {
      CStringStops(k, "");
      assert k != "" ==> buffer[0..] == k + [NUL] + "";
      status, end := FinishKey(key, None, ch, k, "", FinishLine(stack, k, "", Cursor(ch, rest)), false);
    }

    /**
     * The rest of cfg_read_line behind a name that opens no section, read into a buffer that was m;
     * a characters need room for the name, and n for the value if there is one.
     */
    method KeyLine(ch: Option<char>, ghost name: string, ghost m: Memory, ghost a: nat, ghost n: nat, ghost l: Line,
                   ghost moved: bool)
      returns (status: Status, end: bool)
      requires Valid() && buffer == name && ch != Some('{') && mem == Grown(m, |name|) && a == NameRoom(name)
      requires l == NamedLine(stack, Scan(name, Cursor(ch, rest))) && n == KeyedRoom(Scan(name, Cursor(ch, rest)))
      requires moved == (TrimEnd(name) != "" && Grown(Grown(m, a), n).block != Grown(m, a).block)
      modifies this`rest, this`buffer, this`mem, this`log
      ensures Did(Moved(l, moved), status, end, old(log), stack)
      ensures status == Ok ==> mem == Grown(Grown(m, a), n)
    {
      ghost var k := TrimEnd(name);
      GrownTwice(m, |name|, |StringBytes(k)|, a);
      var key := TakeKey(name, |StringBytes(k)|);
      if ch == Some('=') {
        status, end := ValuePart(key, k, l, n, moved);
      } else {
        status, end := NoValue(key, ch, k);
      }
    }

    /** cfg_read_line. */
    method NextLine() returns (status: Status, end: bool)
      modifies this
      ensures Did(LineIn(old(mem), old(stack), old(rest)), status, end, old(log), old(stack))
      ensures status == Ok ==> mem == LineMemory(old(mem), old(rest))
    {
      buffer := [];
      end := false;
      var ch := EatSpace();
      if ch.None? {
        return Ok, true;
      }
      if ch.value == '}' {
        if stack == [] {
          return Syntax, false;
        }
        log := log + [End(stack[0])];
        stack := stack[1..];
        return Ok, false;
      }
      status, end := NamedPart(ch, ReadName(Cursor(ch, rest)));
    }

    /** The part of cfg_read_line from the name on. */
    method NamedPart(first: Option<char>, ghost name: Scan) returns (status: Status, end: bool)
      requires Valid() && buffer == [] && name == ReadName(Cursor(first, rest))
      modifies this
      ensures Did(Moved(NamedLine(old(stack), name), NamedMoves(old(mem), name)), status, end, old(log), old(stack))
      ensures status == Ok ==> mem == NamedMemory(old(mem), name)
    {
      ghost var m, l, moved := mem, NamedLine(stack, name), NamedMoves(mem, name);
      var ch := NameLoop(first, |name.text|);
      status, end := BehindName(ch, name, m, l, moved);
    }

    method BehindName(ch: Option<char>, ghost name: Scan, ghost m: Memory, ghost l: Line, ghost moved: bool)
      returns (status: Status, end: bool)
      requires Valid() && buffer == name.text && Cursor(ch, rest) == name.cur && mem == Grown(m, |name.text|)
      requires l == NamedLine(stack, name) && moved == NamedMoves(m, name)
      modifies this
      ensures Did(Moved(l, moved), status, end, old(log), old(stack))
      ensures status == Ok ==> mem == NamedMemory(m, name)
    {
      if ch == Some('{') {
        status := BeginLine(name.text, m);
        end := false;
      } else {
        status, end := KeyLine(ch, name.text, m, NameRoom(name.text), KeyedRoom(name), l, moved);
      }
    }

    method BeginLine(ghost name: string, ghost m: Memory) returns (status: Status)
      requires Valid() && buffer == name && mem == Grown(m, |name|)
      modifies this`buffer, this`mem, this`stack, this`log
      ensures Did(NamedLine(old(stack), Scan(name, Cursor(Some('{'), rest))), status, false, old(log), old(stack))
      ensures status == Ok ==> mem == Grown(m, |name| + 1)
    {
      GrownTwice(m, |name|, |name| + 1, |name| + 1);
      status := OpenSection(name);
    }

    /** cfg_parse. */
    method ParseFile() returns (status: Status)
      modifies this
      ensures var o := ParseIn(old(mem), old(stack), old(rest));
              status == o.status && log == old(log) + o.events && stack == o.stack
    {
      ghost var all := ParseIn(mem, stack, rest);
      while true
        invariant var o := ParseIn(mem, stack, rest);
                  o.status == all.status && o.stack == all.stack && log + o.events == old(log) + all.events
        decreases |rest|
      {
        ghost var before := log;
        ghost var l, m, more := LineIn(mem, stack, rest), LineMemory(mem, rest), ParseIn(mem, stack, rest).events;
        if l.Line? && !l.end {
          Regroup(before, l.events, ParseIn(m, l.stack, l.rest).events);
        } else {
          assert more == if l.Line? then l.events else [];
        }
        var end;
        status, end := NextLine();
        if status != Ok || end {
          return;
        }
      }
    }
  }

  lemma TrimStep(text: string, k: nat)
    requires 0 < k <= |text| && IsSpace(text[k - 1])
    ensures TrimEnd(text[..k - 1]) == TrimEnd(text[..k])
  {
    assert text[..k][..k - 1] == text[..k - 1];
  }

  lemma Trimmed(buffer: string, from: nat, leng: nat)
    requires from <= leng <= |buffer| && (leng > from ==> !IsSpace(buffer[leng - 1]))
    requires TrimEnd(buffer[from..][..leng - from]) == TrimEnd(buffer[from..])
    ensures buffer[..leng] == buffer[..from] + TrimEnd(buffer[from..])
  {
    var text := buffer[from..][..leng - from];
    assert leng > from ==> text[|text| - 1] == buffer[leng - 1];
    assert TrimEnd(text) == text;
  }

  /** A quote at the end of the buffer belongs to the value: the key ends in a NUL. */
  lemma LastByte(k: string, text: string)
    requires StringBytes(k) + text != ""
    ensures var buffer := StringBytes(k) + text;
            && (buffer[|buffer| - 1] == '"' <==> text != "" && text[|text| - 1] == '"')
            && (text != "" ==> buffer[..|buffer| - 1] == StringBytes(k) + text[..|text| - 1])
            && (text == "" ==> k != "")
  {
    assert text == "" ==> StringBytes(k) + text == StringBytes(k);
  }

  lemma {:induction false} CStringStops(a: string, b: string)
    ensures AsCString(a + [NUL] + b) == AsCString(a)
  {
    var s := a + [NUL] + b;
    if a != "" && a[0] != NUL {
      assert s[0] == a[0] && s[1..] == a[1..] + [NUL] + b;
      CStringStops(a[1..], b);
    }
  }

  /** Key and value can both be read back from the buffer. */
  lemma StringsInBuffer(k: string, v: string)
    ensures var buffer := StringBytes(k) + StringBytes(v);
            && (k != "" ==> AsCString(buffer) == AsCString(k))
            && (v != "" ==> AsCString(buffer[|StringBytes(k)|..]) == AsCString(v))
            && (v == "" ==> buffer == StringBytes(k) + v)
            && (v != "" ==> buffer == StringBytes(k) + v + [NUL])
            && (k != "" ==> buffer[0..] == buffer)
  {
    CStringStops(k, StringBytes(v));
    CStringStops(v, "");
    assert (StringBytes(k) + StringBytes(v))[|StringBytes(k)|..] == StringBytes(v);
    assert v != "" ==> StringBytes(v) == v + [NUL] + "";
  }
}
