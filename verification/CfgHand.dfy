// What the reader of am_mw/am_cfg/am_cfg_input.c makes of files that were written by hand: values without quotes,
// names without values, comments, and quoted values with any escapes, also over the ends of lines.

module CfgHand {
  import opened CfgText
  import opened CfgParse
  import opened CfgRoundTrip
  import opened Seqs
  import opened Wrappers

  predicate White(s: string) {
    forall i :: 0 <= i < |s| ==> IsSpace(s[i])
  }

  /** White space within a line. */
  predicate Blank(s: string) {
    forall i :: 0 <= i < |s| ==> IsSpace(s[i]) && s[i] != '\n'
  }

  predicate OneLine(s: string) {
    forall i :: 0 <= i < |s| ==> s[i] != '\n'
  }

  /**
   * A value without quotes. It may contain anything but a line end, and does not start or end in white space. A line
   * end in front is part of it: that is how the value of the next line gets to a key without a value of its own.
   */
  predicate PlainValue(v: string) {
    && v != "" && v[0] != '"' && (v[0] == '\n' || !IsSpace(v[0])) && OneLine(v[1..])
    && !IsSpace(v[|v| - 1])
  }

  // ---- steps ------------------------------------------------------------------------------------

  lemma {:induction false} TrimsBlank(s: string, trail: string)
    requires (s == "" || !IsSpace(s[|s| - 1])) && White(trail)
    ensures TrimEnd(s + trail) == s
    decreases |trail|
  {
    if trail == "" {
      assert s + trail == s;
    } else {
      var n := |trail| - 1;
      assert (s + trail)[..|s| + n] == s + trail[..n];
      TrimsBlank(s, trail[..n]);
    }
  }

  lemma {:induction false} SkipsBlank(pad: string, rest: string)
    requires Blank(pad)
    ensures SkipBlank(pad + rest) == SkipBlank(rest)
  {
    if pad == "" {
      assert pad + rest == rest;
    } else {
      assert (pad + rest)[1..] == pad[1..] + rest;
      SkipsBlank(pad[1..], rest);
    }
  }

  /** The rest of a line is collected as it stands. */
  lemma {:induction false} TailReads(v: string, rest: string)
    requires OneLine(v)
    ensures ReadTail(Step(v + "\n" + rest)) == Scan(v, Cursor(Some('\n'), rest))
  {
    if v == "" {
      assert v + "\n" + rest == "\n" + rest && ("\n" + rest)[1..] == rest;
    } else {
      assert (v + "\n" + rest)[1..] == v[1..] + "\n" + rest;
      TailReads(v[1..], rest);
      assert [v[0]] + v[1..] == v;
    }
  }

  /** At the end of the file too. */
  lemma {:induction false} LastTailReads(v: string)
    requires OneLine(v)
    ensures ReadTail(Step(v)) == Scan(v, Cursor(None, ""))
  {
    if v != "" {
      LastTailReads(v[1..]);
      assert [v[0]] + v[1..] == v;
    }
  }

  lemma {:induction false} CommentEnds(comment: string, rest: string)
    requires OneLine(comment)
    ensures SkipComment(Step(comment + "\n" + rest)) == Cursor(Some('\n'), rest)
  {
    if comment == "" {
      assert comment + "\n" + rest == "\n" + rest && ("\n" + rest)[1..] == rest;
    } else {
      assert (comment + "\n" + rest)[1..] == comment[1..] + "\n" + rest;
      CommentEnds(comment[1..], rest);
    }
  }

  // ---- lines ------------------------------------------------------------------------------------

  /** A name with white space around it, up to the character that ends it. */
  lemma NameReads(lead: string, key: string, gap: string, stop: char, rest: string)
    requires White(lead) && KeyName(key) && Blank(gap) && NameEnd(stop)
    ensures var first := SkipSpace(lead + key + gap + [stop] + rest);
            && first.ch.Some? && first.ch.value != '}'
            && ReadName(first) == Scan(key + gap, Cursor(Some(stop), rest)) && TrimEnd(key + gap) == key
  {
    var name := key + gap;
    assert forall i :: 0 <= i < |name| ==> NameChar(name[i]);
    assert lead + key + gap + [stop] + rest == lead + name + [stop] + rest;
    NameAfterTabs(lead, name, stop, rest);
    TrimsBlank(key, gap);
  }

  lemma KeyIsClean(key: string)
    requires KeyName(key)
    ensures AsCString(key) == key != ""
  {
    assert forall i :: 0 <= i < |key| ==> NameChar(key[i]);
  }

  /** A plain value behind the key, with white space around it. */
  lemma PlainScans(pad: string, v: string, trail: string, rest: string)
    requires Blank(pad) && PlainValue(v) && Blank(trail)
    ensures var input := pad + v + trail + "\n" + rest;
            !Quoted(input) && ValueScan(input) == Scan(v + trail, Cursor(Some('\n'), rest))
  {
    var tail := v[1..] + trail;
    assert v + trail == [v[0]] + tail;
    assert pad + v + trail + "\n" + rest == pad + ([v[0]] + tail + "\n" + rest);
    SkipsBlank(pad, [v[0]] + tail + "\n" + rest);
    assert ([v[0]] + tail + "\n" + rest)[1..] == tail + "\n" + rest;
    TailReads(tail, rest);
  }

  lemma LastPlainScans(pad: string, v: string, trail: string)
    requires Blank(pad) && PlainValue(v) && Blank(trail)
    ensures var input := pad + v + trail;
            !Quoted(input) && ValueScan(input) == Scan(v + trail, Cursor(None, ""))
  {
    var tail := v[1..] + trail;
    assert v + trail == [v[0]] + tail;
    assert pad + v + trail == pad + ([v[0]] + tail);
    SkipsBlank(pad, [v[0]] + tail);
    assert ([v[0]] + tail)[1..] == tail;
    LastTailReads(tail);
  }

  /**
   * A line `key = value`: the callback gets the key and the whole value, whatever other characters they contain, both
   * without the white space around them.
   */
  lemma PlainLineReads(stack: seq<string>, lead: string, key: string, gap: string, pad: string, v: CString,
                       trail: string, rest: string)
    requires White(lead) && KeyName(key) && Blank(gap) && Blank(pad) && PlainValue(v) && Blank(trail)
    ensures ReadLine(stack, lead + key + gap + "=" + pad + v + trail + "\n" + rest) ==
            Line([Key(key, v)], stack, rest, false)
  {
    var value := pad + v + trail + "\n" + rest;
    assert lead + key + gap + "=" + pad + v + trail + "\n" + rest == lead + key + gap + ['='] + value;
    NameReads(lead, key, gap, '=', value);
    PlainScans(pad, v, trail, rest);
    TrimsBlank(v, trail);
    KeyIsClean(key);
  }

  /** The same at the end of the file, which such a line ends. */
  lemma LastLineReads(stack: seq<string>, lead: string, key: string, gap: string, pad: string, v: CString,
                      trail: string)
    requires White(lead) && KeyName(key) && Blank(gap) && Blank(pad) && PlainValue(v) && Blank(trail)
    ensures ReadLine(stack, lead + key + gap + "=" + pad + v + trail) == Line([Key(key, v)], stack, "", true)
  {
    var value := pad + v + trail;
    assert lead + key + gap + "=" + pad + v + trail == lead + key + gap + ['='] + value;
    NameReads(lead, key, gap, '=', value);
    LastPlainScans(pad, v, trail);
    TrimsBlank(v, trail);
    KeyIsClean(key);
  }

  /** Without any value before the end of the file the key gets the byte that stands for the end. */
  lemma MissingValueReads(stack: seq<string>, lead: string, key: string, gap: string, pad: string)
    requires White(lead) && KeyName(key) && Blank(gap) && Blank(pad)
    ensures ReadLine(stack, lead + key + gap + "=" + pad) == Line([Key(key, [EOF_BYTE])], stack, "", true)
  {
    assert lead + key + gap + "=" + pad == lead + key + gap + ['='] + pad;
    NameReads(lead, key, gap, '=', pad);
    assert pad + "" == pad;
    SkipsBlank(pad, "");
    KeyIsClean(key);
    assert ReadPlain(Cursor(None, "")).text == [EOF_BYTE];
    TrimsBlank([EOF_BYTE], "");
    assert [EOF_BYTE] + "" == [EOF_BYTE];
  }

  /** A key without a value, with or without a comment behind it. */
  lemma FlagLineReads(stack: seq<string>, lead: string, key: string, gap: string, comment: Option<string>, rest: string)
    requires White(lead) && KeyName(key) && Blank(gap) && (comment.Some? ==> OneLine(comment.value))
    ensures ReadLine(stack, lead + key + gap + Comment(comment) + "\n" + rest) ==
            Line([Key(key, "")], stack, rest, false)
  {
    match comment
    case None =>
      assert lead + key + gap + "" + "\n" + rest == lead + key + gap + ['\n'] + rest;
      BareKeyReads(stack, lead, key, gap, '\n', rest, rest);
    case Some(text) =>
      assert lead + key + gap + ("#" + text) + "\n" + rest == lead + key + gap + ['#'] + (text + "\n" + rest);
      CommentEnds(text, rest);
      BareKeyReads(stack, lead, key, gap, '#', text + "\n" + rest, rest);
  }

  lemma BareKeyReads(stack: seq<string>, lead: string, key: string, gap: string, stop: char, tail: string, rest: string)
    requires White(lead) && KeyName(key) && Blank(gap) && (stop == '\n' || stop == '#')
    requires SkipComment(Cursor(Some(stop), tail)) == Cursor(Some('\n'), rest)
    ensures ReadLine(stack, lead + key + gap + [stop] + tail) == Line([Key(key, "")], stack, rest, false)
  {
    NameReads(lead, key, gap, stop, tail);
    KeyIsClean(key);
  }

  function Comment(comment: Option<string>): string {
    if comment.Some? then "#" + comment.value else ""
  }

  /** A line with nothing but a comment. */
  lemma CommentLineReads(stack: seq<string>, lead: string, comment: string, rest: string)
    requires White(lead) && OneLine(comment)
    ensures ReadLine(stack, lead + "#" + comment + "\n" + rest) == Line([], stack, rest, false)
  {
    var tail := "#" + comment + "\n" + rest;
    assert lead + "#" + comment + "\n" + rest == lead + tail;
    SkipsSpace(lead, tail);
    assert tail[0] == '#' && tail[1..] == comment + "\n" + rest;
    CommentEnds(comment, rest);
  }

  /** A section head, with the name as it stands up to the brace. */
  lemma HeadReads(stack: seq<string>, lead: string, name: string, rest: string)
    requires White(lead) && SectionName(name)
    ensures ReadLine(stack, lead + name + "{" + rest) == Line([Begin(name)], [name] + stack, rest, false)
  {
    assert lead + name + "{" + rest == lead + name + ['{'] + rest;
    NameAfterTabs(lead, name, '{', rest);
    assert forall i :: 0 <= i < |name| ==> NameChar(name[i]);
  }

  // ---- quoted values ------------------------------------------------------------------------------

  /** A character as it stands, one behind a backslash, or one that a backslash brings over from the next line. */
  datatype Piece = Bare(c: char) | Slashed(c: char) | Joined(c: char)

  predicate Spellable(p: Piece) {
    match p
    case Bare(c) => c != '\n' && c != '\\'
    case Slashed(c) => c != '\n'
    case Joined(_) => true
  }

  function Spelled(p: Piece): string {
    match p
    case Bare(c) => [c]
    case Slashed(c) => ['\\', c]
    case Joined(c) => ['\\', '\n', c]
  }

  function Meant(p: Piece): char {
    if p.Slashed? then Unescaped(p.c) else p.c
  }

  function SpelledAll(ps: seq<Piece>): string {
    if ps == [] then "" else Spelled(ps[0]) + SpelledAll(ps[1..])
  }

  function MeantAll(ps: seq<Piece>): string {
    if ps == [] then "" else [Meant(ps[0])] + MeantAll(ps[1..])
  }

  /** Reading takes every piece for what it means, and stops at the first line end that no backslash joins. */
  lemma {:induction false} PiecesRead(ps: seq<Piece>, rest: string)
    requires forall i :: 0 <= i < |ps| ==> Spellable(ps[i])
    ensures ReadQuoted(SpelledAll(ps) + "\n" + rest) == Scan(MeantAll(ps), Cursor(Some('\n'), rest))
  {
    if ps == [] {
      assert SpelledAll(ps) + "\n" + rest == "\n" + rest && ("\n" + rest)[1..] == rest;
    } else {
      var tail := SpelledAll(ps[1..]) + "\n" + rest;
      assert SpelledAll(ps) + "\n" + rest == Spelled(ps[0]) + tail;
      PieceReads(ps[0], tail);
      PiecesRead(ps[1..], rest);
    }
  }

  lemma PieceReads(p: Piece, tail: string)
    requires Spellable(p) && tail != ""
    ensures ReadQuoted(Spelled(p) + tail) == Before([Meant(p)], ReadQuoted(tail))
  {
    match p
    case Bare(c) => PlainReadsBack(c, tail);
    case Slashed(c) => PairReadsBack(c, tail);
    case Joined(c) =>
      var input := ['\\', '\n', c] + tail;
      assert input[3..] == tail && input[1] == '\n' && input[2] == c && |input| > 3;
  }

  /**
   * A quoted value means its pieces, up to the quote that ends the line but for white space; without that quote the
   * line is an error.
   */
  lemma QuotedLineReads(stack: seq<string>, lead: string, key: string, gap: string, pad: string, ps: seq<Piece>,
                        rest: string, value: string)
    requires White(lead) && KeyName(key) && Blank(gap) && Blank(pad)
    requires (forall i :: 0 <= i < |ps| ==> Spellable(ps[i])) && value == TrimEnd(MeantAll(ps))
    ensures ReadLine(stack, lead + key + gap + "=" + pad + "\"" + SpelledAll(ps) + "\n" + rest) ==
            if value != "" && value[|value| - 1] == '"'
            then Line([Key(key, AsCString(value[..|value| - 1]))], stack, rest, false)
            else SyntaxError
  {
    PiecesRead(ps, rest);
    QuotedTextReads(stack, lead, key, gap, pad, SpelledAll(ps), MeantAll(ps), rest, value);
  }

  /** The same, from what the text in quotes is read as. */
  lemma QuotedTextReads(stack: seq<string>, lead: string, key: string, gap: string, pad: string, text: string,
                        meant: string, rest: string, value: string)
    requires White(lead) && KeyName(key) && Blank(gap) && Blank(pad) && value == TrimEnd(meant)
    requires ReadQuoted(text + "\n" + rest) == Scan(meant, Cursor(Some('\n'), rest))
    ensures ReadLine(stack, lead + key + gap + "=" + pad + "\"" + text + "\n" + rest) ==
            if value != "" && value[|value| - 1] == '"'
            then Line([Key(key, AsCString(value[..|value| - 1]))], stack, rest, false)
            else SyntaxError
  {
    var quoted := pad + (['"'] + (text + "\n" + rest));
    Quotes(lead + key + gap, pad, text, rest);
    NameReads(lead, key, gap, '=', quoted);
    QuotedScans(pad, text + "\n" + rest);
    KeyIsClean(key);
  }

  lemma Quotes(head: string, pad: string, text: string, rest: string)
    ensures head + "=" + pad + "\"" + text + "\n" + rest == head + ['='] + (pad + (['"'] + (text + "\n" + rest)))
  {
  }

  lemma QuotedScans(pad: string, text: string)
    requires Blank(pad)
    ensures Quoted(pad + (['"'] + text)) && ValueScan(pad + (['"'] + text)) == ReadQuoted(text)
  {
    SkipsBlank(pad, ['"'] + text);
    assert (['"'] + text)[1..] == text;
  }

  // ---- files ------------------------------------------------------------------------------------

  /** The lines of a file, with the white space around their parts. */
  datatype Item =
    | Pair(lead: string, key: string, gap: string, pad: string, value: CString, trail: string)
    | Quoting(lead: string, key: string, gap: string, pad: string, pieces: seq<Piece>)
    | Flag(lead: string, key: string, gap: string, comment: Option<string>)
    | Remark(lead: string, text: string)
    | Head(lead: string, name: string)
    | Foot(lead: string)

  predicate ItemOk(item: Item) {
    White(item.lead) &&
    match item
    case Pair(_, key, gap, pad, value, trail) =>
      KeyName(key) && Blank(gap) && Blank(pad) && PlainValue(value) && Blank(trail)
    case Quoting(_, key, gap, pad, pieces) =>
      KeyName(key) && Blank(gap) && Blank(pad) && forall i :: 0 <= i < |pieces| ==> Spellable(pieces[i])
    case Flag(_, key, gap, comment) => KeyName(key) && Blank(gap) && (comment.Some? ==> OneLine(comment.value))
    case Remark(_, text) => OneLine(text)
    case Head(_, name) => SectionName(name)
    case Foot(_) => true
  }

  function ItemText(item: Item): string {
    match item
    case Pair(lead, key, gap, pad, value, trail) => lead + key + gap + "=" + pad + value + trail + "\n"
    case Quoting(lead, key, gap, pad, pieces) => lead + key + gap + "=" + pad + "\"" + SpelledAll(pieces) + "\n"
    case Flag(lead, key, gap, comment) => lead + key + gap + Comment(comment) + "\n"
    case Remark(lead, text) => lead + "#" + text + "\n"
    case Head(lead, name) => lead + name + "{"
    case Foot(lead) => lead + "}"
  }

  /**
   * What the line stands for inside these sections. A closing brace outside all of them is an error, and so is a quoted
   * value that does not end in its quote.
   */
  function ItemLine(stack: seq<string>, item: Item, rest: string): Line {
    match item
    case Pair(_, key, _, _, value, _) => Line([Key(key, value)], stack, rest, false)
    case Quoting(_, key, _, _, pieces) =>
      var text := TrimEnd(MeantAll(pieces));
      if text == "" || text[|text| - 1] != '"' then SyntaxError
      else Line([Key(key, AsCString(text[..|text| - 1]))], stack, rest, false)
    case Flag(_, key, _, _) => Line([Key(key, "")], stack, rest, false)
    case Remark(_, _) => Line([], stack, rest, false)
    case Head(_, name) => Line([Begin(name)], [name] + stack, rest, false)
    case Foot(_) => if stack == [] then SyntaxError else Line([End(stack[0])], stack[1..], rest, false)
  }

  lemma ItemReads(stack: seq<string>, item: Item, rest: string)
    requires ItemOk(item)
    ensures ReadLine(stack, ItemText(item) + rest) == ItemLine(stack, item, rest)
  {
    match item
    case Pair(lead, key, gap, pad, value, trail) => PlainLineReads(stack, lead, key, gap, pad, value, trail, rest);
    case Quoting(lead, key, gap, pad, pieces) =>
      QuotedLineReads(stack, lead, key, gap, pad, pieces, rest, TrimEnd(MeantAll(pieces)));
    case Flag(lead, key, gap, comment) => FlagLineReads(stack, lead, key, gap, comment, rest);
    case Remark(lead, text) => CommentLineReads(stack, lead, text, rest);
    case Head(lead, name) => HeadReads(stack, lead, name, rest);
    case Foot(lead) => CloseNeedsOpen(stack, lead, rest);
  }

  function FileText(items: seq<Item>): string {
    if items == [] then "" else ItemText(items[0]) + FileText(items[1..])
  }

  /** What a file of these lines stands for. */
  function FileMeans(stack: seq<string>, items: seq<Item>): Outcome
    decreases |items|
  {
    if items == [] then Outcome(Ok, [], stack)
    else
      match ItemLine(stack, items[0], "")
      case Line(events, after, _, _) =>
        var more := FileMeans(after, items[1..]); Outcome(more.status, events + more.events, more.stack)
      case _ => Outcome(Syntax, [], stack)
  }

  /** A file that is written by hand means what its lines stand for. */
  lemma {:induction false} FileReads(stack: seq<string>, items: seq<Item>)
    requires forall i :: 0 <= i < |items| ==> ItemOk(items[i])
    ensures Parse(stack, FileText(items)) == FileMeans(stack, items)
    decreases |items|
  {
    if items == [] {
      assert SkipSpace("") == Cursor(None, "");
    } else {
      var rest := FileText(items[1..]);
      ItemReads(stack, items[0], rest);
      var l := ItemLine(stack, items[0], rest);
      if l.Line? {
        FileReads(l.stack, items[1..]);
      }
    }
  }

  /** Where growing never moves the buffer, no key dangles. */
  lemma {:induction false} NeverDangles(m: Memory, stack: seq<string>, input: string)
    requires forall r :: !m.moves(r)
    ensures Steady(m, stack, input)
    decreases |input|
  {
    match ReadLine(stack, input)
    case Line(_, after, rest, end) =>
      NeverMoves(m, input);
      if !end {
        NeverDangles(LineMemory(m, input), after, rest);
      }
    case _ =>
  }

  lemma NeverMoves(m: Memory, input: string)
    requires forall r :: !m.moves(r)
    ensures !Moves(m, input) && LineMemory(m, input).moves == m.moves
  {
    var first := SkipSpace(input);
    if IsNamed(first) {
      var name := ReadName(first);
      var withKey := Grown(m, NameRoom(name.text));
      MovedExactly(withKey, KeyedRoom(name));
      InPlace(m.moves, withKey.room, KeyedRoom(name));
    }
  }

  lemma {:induction false} InPlace(moves: nat -> bool, room: nat, n: nat)
    requires forall r :: !moves(r)
    ensures !MovedOn(moves, room, n)
    decreases n - room
  {
    if n > room {
      InPlace(moves, Larger(room), n);
    }
  }

  /**
   * The program on a file that is written by hand: where growing never moves the buffer, the callbacks get exactly what
   * its lines stand for; elsewhere they get that, or the parser crashes behind the first of them because a key
   * dangles.
   */
  lemma HandWrittenReads(m: Memory, stack: seq<string>, items: seq<Item>)
    requires forall i :: 0 <= i < |items| ==> ItemOk(items[i])
    ensures (forall r :: !m.moves(r)) ==> ParseIn(m, stack, FileText(items)) == FileMeans(stack, items)
    ensures var o := ParseIn(m, stack, FileText(items));
            o == FileMeans(stack, items) || (o.status == Crash && o.events <= FileMeans(stack, items).events)
  {
    FileReads(stack, items);
    ParsesExactly(m, stack, FileText(items));
    if forall r :: !m.moves(r) {
      NeverDangles(m, stack, FileText(items));
    }
  }
}
