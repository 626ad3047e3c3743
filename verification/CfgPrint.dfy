// The writer of am_mw/am_cfg/am_cfg_output.c.

module CfgPrint {
  import opened CfgText
  import opened Seqs
  import opened Wrappers

  const AM_SUCCESS := 0
  const ERR_SYNTAX := 0xC00_0004

  /** One character of a value as AM_CFG_StoreStr writes it; quotes are not escaped. */
  function Escaped(c: char): string {
    if c == '\n' then ['\\', 'n']
    else if c == '\r' then ['\\', 'r']
    else if c == '\t' then ['\\', 't']
    else if c == VT then ['\\', 'v']
    else if c == FF then ['\\', 'f']
    else if c == BEL then ['\\', 'a']
    else if c == BS then ['\\', 'b']
    else if c == '\\' then ['\\', '\\']
    else [c]
  }

  function Escape(s: string): string {
    if s == "" then "" else Escaped(s[0]) + Escape(s[1..])
  }

  lemma {:induction false} EscapeSnoc(s: string, c: char)
    ensures Escape(s + [c]) == Escape(s) + Escaped(c)
  {
    if s == "" {
      assert s + [c] == [c] && Escape([c][1..]) == "";
    } else {
      assert (s + [c])[1..] == s[1..] + [c];
      EscapeSnoc(s[1..], c);
    }
  }

  function Tabs(level: nat): (s: string)
    ensures |s| == level && forall i :: 0 <= i < level ==> s[i] == '\t'
  {
    seq(level, _ => '\t')
  }

  lemma Assoc(a: string, b: string, c: string, d: string, e: string, f: string)
    ensures ((a + b) + (c + d)) + e + f == a + (b + c + d + e + f)
  {
  }

  /** The calls of the output API. */
  datatype Call = Store(key: CString, value: CString) | Open(name: CString) | Close

  function CallText(level: nat, call: Call): string {
    match call
    case Store(key, value) => Tabs(level) + key + "=\"" + Escape(value) + "\"\n"
    case Open(name) => Tabs(level) + name + "{\n"
    case Close => if level == 0 then "" else Tabs(level - 1) + "}\n"
  }

  function LevelAfter(level: nat, call: Call): nat {
    match call
    case Store(_, _) => level
    case Open(_) => level + 1
    case Close => if level == 0 then 0 else level - 1
  }

  function Text(level: nat, calls: seq<Call>): string
    decreases |calls|
  {
    if calls == [] then "" else CallText(level, calls[0]) + Text(LevelAfter(level, calls[0]), calls[1..])
  }

  /** AM_CFG_OutputContext_t; `out` is the file. */
  class Output {
    var level: nat
    var out: string

    constructor ()
      ensures level == 0 && out == ""
    {
      level, out := 0, "";
    }

    method Fputc(c: char)
      modifies this`out
      ensures out == old(out) + [c]
    {
      out := out + [c];
    }

    method Prefix()
      modifies this`out
      ensures out == old(out) + Tabs(level)
    {
      for i := 0 to level
        invariant out == old(out) + Tabs(i)
      {
        Fputc('\t');
        assert Tabs(i + 1) == Tabs(i) + ['\t'];
      }
    }

    /** The switch of AM_CFG_StoreStr. */
    method PutEscaped(c: char)
      modifies this`out
      ensures out == old(out) + Escaped(c)
    {
      if c == '\n' {
        PutPair('n');
      } else if c == '\r' {
        PutPair('r');
      } else if c == '\t' {
        PutPair('t');
      } else if c == VT {
        PutPair('v');
      } else if c == FF {
        PutPair('f');
      } else if c == BEL {
        PutPair('a');
      } else if c == BS {
        PutPair('b');
      } else if c == '\\' {
        PutPair('\\');
      } else {
        Fputc(c);
      }
    }

    method PutPair(c: char)
      modifies this`out
      ensures out == old(out) + ['\\', c]
    {
      Fputc('\\');
      Fputc(c);
    }

    method PutValue(s: CString)
      modifies this`out
      ensures out == old(out) + Escape(s)
    {
      var i := 0;
      while i < |s|
        invariant 0 <= i <= |s| && out == old(out) + Escape(s[..i])
      {
        EscapeSnoc(s[..i], s[i]);
        assert s[..i + 1] == s[..i] + [s[i]];
        Regroup(old(out), Escape(s[..i]), Escaped(s[i]));
        PutEscaped(s[i]);
        i := i + 1;
      }
      assert s[..i] == s;
    }

    /** AM_CFG_StoreStr; a null string is stored like an empty one. */
    method StoreStr(key: CString, str: Option<CString>) returns (ret: int)
      modifies this`out
      ensures ret == AM_SUCCESS
      ensures out == old(out) + CallText(level, Store(key, if str.Some? then str.value else ""))
    {
      Prefix();
      out := out + (key + "=\"");
      ghost var value := if str.Some? then str.value else "";
      if str.Some? {
        PutValue(str.value);
      }
      out := out + "\"\n";
      Assoc(old(out), Tabs(level), key, "=\"", Escape(value), "\"\n");
      return AM_SUCCESS;
    }

    method BeginSection(sec: CString) returns (ret: int)
      modifies this
      ensures ret == AM_SUCCESS && level == LevelAfter(old(level), Open(sec))
      ensures out == old(out) + CallText(old(level), Open(sec))
    {
      Prefix();
      out := out + sec + "{\n";
      level := level + 1;
      return AM_SUCCESS;
    }

    /** At level 0 nothing is written and the call fails. */
    method EndSection() returns (ret: int)
      modifies this
      ensures ret == if old(level) == 0 then ERR_SYNTAX else AM_SUCCESS
      ensures level == LevelAfter(old(level), Close) && out == old(out) + CallText(old(level), Close)
    {
      if level == 0 {
        return ERR_SYNTAX;
      }
      level := level - 1;
      Prefix();
      out := out + "}\n";
      return AM_SUCCESS;
    }

    method PerformOne(call: Call)
      modifies this
      ensures out == old(out) + CallText(old(level), call) && level == LevelAfter(old(level), call)
    {
      match call {
        case Store(key, value) => var _ := StoreStr(key, Some(value));
        case Open(name) => var _ := BeginSection(name);
        case Close => var _ := EndSection();
      }
    }

    /** Any sequence of output calls writes its text. */
    method Perform(calls: seq<Call>)
      modifies this
      ensures out == old(out) + Text(old(level), calls)
    {
      var i := 0;
      while i < |calls|
        invariant 0 <= i <= |calls|
        invariant out + Text(level, calls[i..]) == old(out) + Text(old(level), calls)
      {
        assert calls[i..][1..] == calls[i + 1..];
        ghost var next := LevelAfter(level, calls[i]);
        Regroup(out, CallText(level, calls[i]), Text(next, calls[i + 1..]));
        PerformOne(calls[i]);
        i := i + 1;
      }
    }
  }
}
