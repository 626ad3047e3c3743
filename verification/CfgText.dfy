// Characters and strings of the configuration files; a char stands for one byte.

module CfgText {
  const NUL: char := 0 as char
  const BEL: char := 7 as char
  const BS: char := 8 as char
  const VT: char := 11 as char
  const FF: char := 12 as char

  /** What (char)EOF leaves in a buffer. */
  const EOF_BYTE: char := 255 as char

  /** isspace in the C locale. */
  predicate IsSpace(c: char) {
    c == ' ' || c == '\t' || c == '\n' || c == VT || c == FF || c == '\r'
  }

  predicate NulFree(s: string) {
    forall i :: 0 <= i < |s| ==> s[i] != NUL
  }

  type CString = s: string | NulFree(s) witness ""

  /** What a callback sees of a buffer: the characters before the first NUL. */
  function AsCString(s: string): (r: CString)
    ensures NulFree(s) ==> r == s
    ensures r <= s
  {
    if s == "" || s[0] == NUL then "" else
      assert NulFree(s) ==> NulFree(s[1..]);
      [s[0]] + AsCString(s[1..])
  }

  /** Without trailing white space. */
  function TrimEnd(s: string): (r: string)
    ensures r <= s
    ensures r != "" ==> !IsSpace(r[|r| - 1])
    ensures forall i :: |r| <= i < |s| ==> IsSpace(s[i])
  {
    if s != "" && IsSpace(s[|s| - 1]) then TrimEnd(s[..|s| - 1]) else s
  }

  /** The characters a key or a section name may contain. */
  predicate NameChar(c: char) {
    c != '=' && c != '{' && c != '#' && c != '\n' && c != NUL
  }

  /** A name the parser can read back: it must not look like the end of a section or start with white space. */
  predicate SectionName(s: string) {
    s != "" && s[0] != '}' && !IsSpace(s[0]) && forall i :: 0 <= i < |s| ==> NameChar(s[i])
  }

  /** A key is also trimmed at its end. */
  predicate KeyName(s: string) {
    SectionName(s) && !IsSpace(s[|s| - 1])
  }

  datatype Event = Begin(name: string) | Key(key: string, value: string) | End(name: string)

  /** The open sections after a sequence of events, innermost first; None when an end does not fit. */
  datatype Nesting = Nested(stack: seq<string>) | Broken

  function Replay(stack: seq<string>, events: seq<Event>): Nesting
    decreases |events|
  {
    if events == [] then Nested(stack)
    else
      match events[0]
      case Begin(name) => Replay([name] + stack, events[1..])
      case Key(_, _) => Replay(stack, events[1..])
      case End(name) =>
        if stack == [] || stack[0] != name then Broken else Replay(stack[1..], events[1..])
  }

  lemma {:induction false} ReplayJoin(stack: seq<string>, a: seq<Event>, b: seq<Event>)
    requires Replay(stack, a).Nested?
    ensures Replay(stack, a + b) == Replay(Replay(stack, a).stack, b)
    decreases |a|
  {
    if a == [] {
      assert a + b == b;
    } else {
      assert (a + b)[1..] == a[1..] + b && (a + b)[0] == a[0];
      match a[0]
      case Begin(name) => ReplayJoin([name] + stack, a[1..], b);
      case Key(_, _) => ReplayJoin(stack, a[1..], b);
      case End(_) => ReplayJoin(stack[1..], a[1..], b);
    }
  }
}
