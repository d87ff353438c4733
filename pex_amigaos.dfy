// The AmigaOS back end of libiberty's process-execution interface. There are
// no pipes and no asynchronous children: a child runs to completion inside
// exec_child through `system`, whose result is stored for the later wait.
// The command handed to `system` is one string built from argv in two
// passes: the first counts an upper bound on its length, the second writes
// it into a buffer of that length plus the terminating NUL. An argument
// holding white space is wrapped in double quotes; inside a quoted (or
// already-quoted) argument each `"` and `*` is prefixed with `*`, the
// AmigaDOS escape character, unless a backslash stands right before it.
module PexAmiga {
  import opened NatDefs

  /** C `int`. */
  newtype cint = x: int | -0x8000_0000 <= x < 0x8000_0000

  /** PEX_USE_PIPES in the flags of pex_init. */
  const PEX_USE_PIPES: bv32 := 0x2

  /** `__shell_escape_character`. */
  const SHELL_ESCAPE_CHARACTER: char := '\\'

  /** The flags pex_init passes on: the caller's, with PEX_USE_PIPES
      cleared because the system has no pipes. */
  function PexInitFlags(flags: bv32): (r: bv32)
    ensures r & PEX_USE_PIPES == 0
    ensures r | PEX_USE_PIPES == flags | PEX_USE_PIPES
  {
    flags & !PEX_USE_PIPES
  }

  // ---------------------------------------------------------------------
  // The command line, as functions of argv.

  /** `isspace` in the C locale. */
  predicate IsSpace(c: char)
  {
    c == ' ' || '\t' <= c <= '\r'
  }

  /** An argument whose first character is a double quote is taken to be
      quoted already (its end is not checked). */
  predicate AlreadyQuoted(arg: string)
  {
    |arg| > 0 && arg[0] == '\"'
  }

  predicate HasSpace(arg: string)
  {
    exists j :: 0 <= j < |arg| && IsSpace(arg[j])
  }

  /** The builder adds double quotes around the argument. */
  predicate NeedQuote(arg: string)
  {
    !AlreadyQuoted(arg) && HasSpace(arg)
  }

  /** Escapes are inserted only in arguments that end up quoted. */
  predicate Quoting(arg: string)
  {
    NeedQuote(arg) || AlreadyQuoted(arg)
  }

  predicate Escapable(c: char)
  {
    c == '\"' || c == '*'
  }

  /** Whether a `*` is written in front of the character at `j`, given
      whether the previous character was an unescaped backslash. */
  predicate StarBefore(arg: string, j: nat, escaped: bool)
    requires j < |arg|
  {
    Escapable(arg[j]) && Quoting(arg) && (!AlreadyQuoted(arg) || j > 0) && !escaped
  }

  /** The `escaped` flag after character `c`: a backslash sets it, unless
      it was itself escaped; any character after it clears it. */
  function NextEscaped(c: char, escaped: bool): bool
  {
    if escaped then false else c == SHELL_ESCAPE_CHARACTER && c != '*'
  }

  /** The characters written for `arg[j..]`, with the flag entering `j`. */
  function EscapeFrom(arg: string, j: nat, escaped: bool): string
    requires j <= |arg|
    decreases |arg| - j
  {
    if j == |arg| then ""
    else Piece(arg, j, escaped) + EscapeFrom(arg, j + 1, NextEscaped(arg[j], escaped))
  }

  /** What is written for the character at `j`: its escape, if due, and
      the character. */
  function Piece(arg: string, j: nat, escaped: bool): string
    requires j < |arg|
  {
    (if StarBefore(arg, j, escaped) then "*" else "") + [arg[j]]
  }

  function QuoteMark(arg: string): string
  {
    if NeedQuote(arg) then "\"" else ""
  }

  /** One argument as it appears in the command line. */
  function EncodeArg(arg: string): string
  {
    QuoteMark(arg) + EscapeFrom(arg, 0, false) + QuoteMark(arg)
  }

  /** The command line for argv: a space goes before an argument only when
      something has been written already. */
  function Command(argv: seq<string>): string
  {
    if argv == [] then ""
    else
      var prefix := Command(argv[..|argv| - 1]);
      prefix + (if prefix != "" then " " else "") + EncodeArg(argv[|argv| - 1])
  }

  /** The number of `"` and `*` in `arg[j..]`. */
  function EscapableCount(arg: string, j: nat): nat
    requires j <= |arg|
    decreases |arg| - j
  {
    if j == |arg| then 0 else (if Escapable(arg[j]) then 1 else 0) + EscapableCount(arg, j + 1)
  }

  /** What the first pass adds for one argument: the separator, the
      characters, two quotes when it needs them, and one escape for every
      `"` and `*` when it is quoted. */
  function ArgLength(arg: string): nat
  {
    1 + |arg| + (if NeedQuote(arg) then 2 else 0) +
    (if Quoting(arg) then EscapableCount(arg, 0) else 0)
  }

  /** The first pass's `len`. */
  function CountedLength(argv: seq<string>): nat
  {
    if argv == [] then 0 else CountedLength(argv[..|argv| - 1]) + ArgLength(argv[|argv| - 1])
  }

  // ---------------------------------------------------------------------
  // Properties of the command line.

  /** The escaped text of `arg[j..]` is at most the characters plus one
      escape per escapable character, and those only when quoting. */
  lemma {:induction false} EscapeFromLength(arg: string, j: nat, escaped: bool)
    requires j <= |arg|
    ensures |EscapeFrom(arg, j, escaped)| <= |arg| - j + (if Quoting(arg) then EscapableCount(arg, j) else 0)
    decreases |arg| - j
  {
    if j < |arg| {
      EscapeFromLength(arg, j + 1, NextEscaped(arg[j], escaped));
    }
  }

  /** An argument with its separator never exceeds what the first pass
      counted for it. */
  lemma EncodeArgFits(arg: string)
    ensures 1 + |EncodeArg(arg)| <= ArgLength(arg)
  {
    EscapeFromLength(arg, 0, false);
  }

  /** The command line fits in the `len` characters the first pass counted,
      so with its NUL it fits the `len + 1` buffer. */
  lemma {:induction false} CommandFitsCount(argv: seq<string>)
    ensures |Command(argv)| <= CountedLength(argv)
  {
    if argv != [] {
      CommandFitsCount(argv[..|argv| - 1]);
      EncodeArgFits(argv[|argv| - 1]);
    }
  }

  lemma CountedStep(argv: seq<string>, i: nat)
    requires i < |argv|
    ensures argv[..i + 1][..i] == argv[..i]
    ensures CountedLength(argv[..i + 1]) == CountedLength(argv[..i]) + ArgLength(argv[i])
    ensures Command(argv[..i + 1]) ==
      Command(argv[..i]) + (if Command(argv[..i]) != "" then " " else "") + EncodeArg(argv[i])
  {
    assert argv[..i + 1][..i] == argv[..i];
  }

  /** The count for a prefix of argv is at most the count for all of it. */
  lemma {:induction false} CountedPrefix(argv: seq<string>, i: nat)
    requires i <= |argv|
    ensures CountedLength(argv[..i]) <= CountedLength(argv)
    decreases |argv| - i
  {
    if i < |argv| {
      CountedStep(argv, i);
      CountedPrefix(argv, i + 1);
    } else {
      assert argv[..i] == argv;
    }
  }

  /** An argument that is not quoted is copied character for character. */
  lemma {:induction false} VerbatimUnlessQuoting(arg: string, j: nat, escaped: bool)
    requires j <= |arg| && !Quoting(arg)
    ensures EscapeFrom(arg, j, escaped) == arg[j..]
    decreases |arg| - j
  {
    if j < |arg| {
      VerbatimUnlessQuoting(arg, j + 1, NextEscaped(arg[j], escaped));
      assert arg[j..] == [arg[j]] + arg[j + 1..];
    }
  }

  /** So such an argument appears unchanged in the command line. */
  lemma PlainArgumentUnchanged(arg: string)
    requires !Quoting(arg)
    ensures EncodeArg(arg) == arg
  {
    VerbatimUnlessQuoting(arg, 0, false);
  }

  /** Reading an escaped text back: `*` followed by a character stands for
      that character. */
  function Unescape(s: string): (r: string)
    ensures |r| <= |s|
  {
    if s == "" then ""
    else if s[0] == '*' && |s| >= 2 then [s[1]] + Unescape(s[2..])
    else [s[0]] + Unescape(s[1..])
  }

  /** Without backslashes every `"` and `*` of a quoted argument is escaped
      (the leading quote of an already-quoted one aside, which is written
      as is), so reading the escapes back gives the argument. */
  lemma {:induction false} UnescapeEscapeFrom(arg: string, j: nat)
    requires j <= |arg| && Quoting(arg) && SHELL_ESCAPE_CHARACTER !in arg
    ensures Unescape(EscapeFrom(arg, j, false)) == arg[j..]
    decreases |arg| - j
  {
    if j < |arg| {
      assert NextEscaped(arg[j], false) == false by {
        assert arg[j] in arg;
      }
      UnescapeEscapeFrom(arg, j + 1);
      var rest := EscapeFrom(arg, j + 1, false);
      assert arg[j..] == [arg[j]] + arg[j + 1..];
      if StarBefore(arg, j, false) {
        assert EscapeFrom(arg, j, false) == ['*', arg[j]] + rest;
      } else {
        assert arg[j] != '*';
        assert EscapeFrom(arg, j, false) == [arg[j]] + rest;
      }
    }
  }

  /** An argument with white space and no leading quote is wrapped in
      double quotes, and what is between them reads back as the argument
      when it holds no backslash. */
  lemma QuotedArgumentRoundTrip(arg: string)
    requires NeedQuote(arg) && SHELL_ESCAPE_CHARACTER !in arg
    ensures |EncodeArg(arg)| >= 2
    ensures EncodeArg(arg)[0] == '\"' && EncodeArg(arg)[|EncodeArg(arg)| - 1] == '\"'
    ensures Unescape(EncodeArg(arg)[1..|EncodeArg(arg)| - 1]) == arg
  {
    var body := EscapeFrom(arg, 0, false);
    assert EncodeArg(arg) == "\"" + body + "\"";
    assert EncodeArg(arg)[1..|EncodeArg(arg)| - 1] == body;
    UnescapeEscapeFrom(arg, 0);
  }

  /** The leading quote of an already-quoted argument is written without
      an escape and no quotes are added around it; it reads back intact
      when it holds no backslash. */
  lemma AlreadyQuotedKeepsLeadingQuote(arg: string)
    requires AlreadyQuoted(arg)
    ensures EncodeArg(arg) == "\"" + EscapeFrom(arg, 1, false)
    ensures SHELL_ESCAPE_CHARACTER !in arg ==> Unescape(EncodeArg(arg)) == arg
  {
    if SHELL_ESCAPE_CHARACTER !in arg {
      UnescapeEscapeFrom(arg, 0);
    }
  }

  /** A backslash that is not itself escaped suppresses the escape of the
      next character, whatever it is, and the flag is clear again after it. */
  lemma BackslashSuppressesEscape(arg: string, j: nat)
    requires j + 1 < |arg| && arg[j] == SHELL_ESCAPE_CHARACTER
    ensures EscapeFrom(arg, j, false) == [arg[j], arg[j + 1]] + EscapeFrom(arg, j + 2, false)
  {
    assert !StarBefore(arg, j, false);
    assert NextEscaped(arg[j], false);
    assert !StarBefore(arg, j + 1, true);
    assert !NextEscaped(arg[j + 1], true);
  }

  /** A non-empty argument never begins with a space: one with white
      space starts with the added quote. */
  lemma EncodeArgStart(arg: string)
    requires EncodeArg(arg) != ""
    ensures EncodeArg(arg)[0] != ' '
  {
    if !NeedQuote(arg) && !AlreadyQuoted(arg) {
      assert arg != "" && !IsSpace(arg[0]);
      assert EncodeArg(arg)[0] == arg[0];
    }
  }

  /** The command line never begins with a space. */
  lemma {:induction false} NoLeadingSpace(argv: seq<string>)
    requires Command(argv) != ""
    ensures Command(argv)[0] != ' '
  {
    var prefix := Command(argv[..|argv| - 1]);
    if prefix != "" {
      NoLeadingSpace(argv[..|argv| - 1]);
    } else {
      EncodeArgStart(argv[|argv| - 1]);
    }
  }

  /** Leading empty arguments write nothing, not even a separator. */
  lemma {:induction false} LeadingEmptyArgumentVanishes(argv: seq<string>)
    ensures Command([""] + argv) == Command(argv)
  {
    if argv != [] {
      var init, last := argv[..|argv| - 1], argv[|argv| - 1];
      assert argv == init + [last];
      assert [""] + argv == ([""] + init) + [last];
      LeadingEmptyArgumentVanishes(init);
      CommandSnoc([""] + init, last);
      CommandSnoc(init, last);
    } else {
      assert EncodeArg("") == "";
    }
  }

  /** The command line of `argv + [arg]` extends that of `argv`. */
  lemma CommandSnoc(argv: seq<string>, arg: string)
    ensures Command(argv + [arg]) ==
      Command(argv) + (if Command(argv) != "" then " " else "") + EncodeArg(arg)
  {
    assert (argv + [arg])[..|argv|] == argv;
  }

  /** Space-separated words: the reference for plain arguments. */
  function JoinWords(words: seq<string>): string
  {
    if words == [] then ""
    else if |words| == 1 then words[0]
    else JoinWords(words[..|words| - 1]) + " " + words[|words| - 1]
  }

  /** Non-empty arguments without white space, leading quote, or anything
      to escape are joined by single spaces. */
  lemma {:induction false} PlainArgumentsJoinedBySpaces(argv: seq<string>)
    requires forall k :: 0 <= k < |argv| ==> argv[k] != "" && !Quoting(argv[k])
    ensures Command(argv) == JoinWords(argv)
  {
    if argv != [] {
      var init := argv[..|argv| - 1];
      PlainArgumentsJoinedBySpaces(init);
      PlainArgumentUnchanged(argv[|argv| - 1]);
      if |argv| > 1 {
        PlainArgumentUnchanged(init[0]);
        assert Command(init) != "" by {
          NonEmptyCommand(init);
        }
      }
    }
  }

  lemma {:induction false} NonEmptyCommand(argv: seq<string>)
    requires argv != [] && EncodeArg(argv[0]) != ""
    ensures Command(argv) != ""
  {
    if |argv| > 1 {
      NonEmptyCommand(argv[..|argv| - 1]);
    }
  }

  // ---------------------------------------------------------------------
  // The two passes.

  /** The white-space scan: stops at the first space. */
  method ScanForSpace(arg: string) returns (needQuote: bool, alreadyQuoted: bool)
    ensures alreadyQuoted == AlreadyQuoted(arg)
    ensures needQuote == NeedQuote(arg)
  {
    needQuote, alreadyQuoted := false, false;
    if |arg| > 0 && arg[0] == '\"' {
      alreadyQuoted := true;
    } else {
      var j := 0;
      while j < |arg|
        invariant 0 <= j <= |arg|
        invariant forall k :: 0 <= k < j ==> !IsSpace(arg[k])
      {
        if IsSpace(arg[j]) {
          needQuote := true;
          break;
        }
        j := j + 1;
      }
    }
  }

  method CountEscapables(arg: string) returns (n: nat)
    ensures n == EscapableCount(arg, 0)
  {
    n := 0;
    var j := 0;
    while j < |arg|
      invariant 0 <= j <= |arg|
      invariant n + EscapableCount(arg, j) == EscapableCount(arg, 0)
    {
      if arg[j] == '\"' || arg[j] == '*' {
        n := n + 1;
      }
      j := j + 1;
    }
  }

  /** The first pass. */
  method CountLength(argv: seq<string>) returns (len: nat)
    ensures len == CountedLength(argv)
  {
    len := 0;
    var i := 0;
    while i < |argv|
      invariant 0 <= i <= |argv|
      invariant len == CountedLength(argv[..i])
    {
      CountedStep(argv, i);
      var arg := argv[i];
      len := len + 1 + |arg|;
      var needQuote, alreadyQuoted := ScanForSpace(arg);
      if needQuote {
        len := len + 2;
      }
      if needQuote || alreadyQuoted {
        var n := CountEscapables(arg);
        len := len + n;
      }
      i := i + 1;
    }
    assert argv[..i] == argv;
  }

  /** `*s++ = c`. */
  method Put(buf: array<char>, s: nat, c: char, ghost out: string) returns (s': nat, ghost out': string)
    requires s < buf.Length && buf[..s] == out
    modifies buf
    ensures s' == s + 1 && out' == out + [c] && buf[..s'] == out'
  {
    buf[s] := c;
    s', out' := s + 1, out + [c];
    assert buf[..s'] == buf[..s] + [c];
  }

  /** The second pass for one argument, writing at `s`: the separator when
      `s` is not the start of the buffer, then the encoded argument. */
  method WriteArg(buf: array<char>, s: nat, arg: string, ghost out: string) returns (s': nat, ghost out': string)
    requires s <= buf.Length && buf[..s] == out
    requires s + 1 + |EncodeArg(arg)| < buf.Length
    modifies buf
    ensures out' == out + (if s != 0 then " " else "") + EncodeArg(arg)
    ensures s' == |out'| && s' <= buf.Length && buf[..s'] == out'
  {
    var needQuote, alreadyQuoted := ScanForSpace(arg);
    var quote := QuoteMark(arg);
    ghost var start := out + (if s != 0 then " " else "");
    s', out' := s, out;
    if s != 0 {
      s', out' := Put(buf, s', ' ', out');
    }
    if needQuote {
      s', out' := Put(buf, s', '\"', out');
    }
    assert out' == start + quote;
    assert |EncodeArg(arg)| == |quote| + |EscapeFrom(arg, 0, false)| + |quote|;
    ghost var head := out';
    var escaped := false;
    var j := 0;
    ghost var done: string := "";
    while j < |arg|
      invariant 0 <= j <= |arg|
      invariant done + EscapeFrom(arg, j, escaped) == EscapeFrom(arg, 0, false)
      invariant out' == head + done
      invariant s' == |out'| && s' < buf.Length
      invariant buf[..s'] == out'
      invariant s' + |EscapeFrom(arg, j, escaped)| + |quote| < buf.Length
      decreases |arg| - j
    {
      ghost var piece := Piece(arg, j, escaped);
      EscapeStep(arg, j, escaped, done);
      s', out', escaped := WriteChar(buf, s', arg, j, escaped, needQuote, alreadyQuoted, out');
      AppendAssoc(head, done, piece);
      done := done + piece;
      j := j + 1;
    }
    assert done == EscapeFrom(arg, 0, false);
    ghost var middle := out';
    if needQuote {
      s', out' := Put(buf, s', '\"', out');
    }
    assert out' == middle + quote;
    EncodedAfter(start, arg);
  }

  lemma EncodedAfter(start: string, arg: string)
    ensures start + QuoteMark(arg) + EscapeFrom(arg, 0, false) + QuoteMark(arg) == start + EncodeArg(arg)
  {
    var q, b := QuoteMark(arg), EscapeFrom(arg, 0, false);
    AppendAssoc(start, q, b);
    AppendAssoc(start, q + b, q);
  }

  /** The loop invariant of the character loop, one step on. */
  lemma EscapeStep(arg: string, j: nat, escaped: bool, done: string)
    requires j < |arg| && done + EscapeFrom(arg, j, escaped) == EscapeFrom(arg, 0, false)
    ensures done + Piece(arg, j, escaped) + EscapeFrom(arg, j + 1, NextEscaped(arg[j], escaped)) ==
      EscapeFrom(arg, 0, false)
  {
    AppendAssoc(done, Piece(arg, j, escaped), EscapeFrom(arg, j + 1, NextEscaped(arg[j], escaped)));
  }

  lemma AppendAssoc(a: string, b: string, c: string)
    ensures a + b + c == a + (b + c)
  {
  }

  /** One step of the character loop: the escape when one is due, the
      character, and the new `escaped` flag. */
  method WriteChar(buf: array<char>, s: nat, arg: string, j: nat, escaped: bool,
                   needQuote: bool, alreadyQuoted: bool, ghost out: string)
    returns (s': nat, ghost out': string, escaped': bool)
    requires j < |arg| && needQuote == NeedQuote(arg) && alreadyQuoted == AlreadyQuoted(arg)
    requires s == |out| && s + 2 <= buf.Length && buf[..s] == out
    modifies buf
    ensures out' == out + Piece(arg, j, escaped)
    ensures s' == |out'| && s' <= buf.Length && buf[..s'] == out'
    ensures escaped' == NextEscaped(arg[j], escaped)
  {
    var c := arg[j];
    s', out' := s, out;
    if (c == '\"' || c == '*') && (needQuote || alreadyQuoted) {
      if !alreadyQuoted || j > 0 {
        if !escaped {
          s', out' := Put(buf, s', '*', out');
        }
      }
    }
    s', out' := Put(buf, s', c, out');
    if escaped {
      escaped' := false;
    } else {
      escaped' := c == SHELL_ESCAPE_CHARACTER && c != '*';
    }
  }

  /** Both passes: a buffer of the counted length plus one, holding the
      command line and its terminating NUL. */
  method BuildCommandLine(argv: seq<string>) returns (scmd: array<char>, end: nat)
    ensures scmd.Length == CountedLength(argv) + 1
    ensures end < scmd.Length && scmd[..end] == Command(argv) && scmd[end] == '\0'
  {
    var len := CountLength(argv);
    scmd := new char[len + 1];
    end := WriteArguments(scmd, argv);
    CommandFitsCount(argv);
    ghost var written := scmd[..end];
    scmd[end] := '\0';
    assert scmd[..end] == written;
  }

  /** The second pass: every argument in turn, from the start of a buffer
      the first pass sized. */
  method WriteArguments(scmd: array<char>, argv: seq<string>) returns (s: nat)
    requires scmd.Length == CountedLength(argv) + 1
    modifies scmd
    ensures s <= CountedLength(argv) && scmd[..s] == Command(argv)
  {
    s := 0;
    ghost var out: string := "";
    var i := 0;
    while i < |argv|
      invariant 0 <= i <= |argv|
      invariant s <= CountedLength(argv[..i]) && s < scmd.Length
      invariant out == Command(argv[..i]) && s == |out| && scmd[..s] == out
    {
      ArgumentFits(argv, i, s);
      s, out := WriteArg(scmd, s, argv[i], out);
      assert out == Command(argv[..i + 1]);
      i := i + 1;
    }
    assert argv[..i] == argv;
  }

  /** The room the first pass counted for argument `i`: writing it after
      `s` characters of the earlier ones stays within the count. */
  lemma ArgumentFits(argv: seq<string>, i: nat, s: nat)
    requires i < |argv| && s <= CountedLength(argv[..i])
    ensures s + 1 + |EncodeArg(argv[i])| <= CountedLength(argv[..i + 1]) <= CountedLength(argv)
    ensures Command(argv[..i + 1]) ==
      Command(argv[..i]) + (if Command(argv[..i]) != "" then " " else "") + EncodeArg(argv[i])
  {
    CountedStep(argv, i);
    CountedPrefix(argv, i + 1);
    EncodeArgFits(argv[i]);
  }

  // ---------------------------------------------------------------------
  // Child statuses.

  /** `rc << 8` on a C int, taken modulo 2^32 as two's complement. */
  function StatusWord(rc: cint): (r: cint)
    ensures (r as int - rc as int * 0x100) % 0x1_0000_0000 == 0
    ensures -0x80_0000 <= rc < 0x80_0000 ==> r as int == rc as int * 0x100
  {
    var u := (rc as int * 0x100) % 0x1_0000_0000;
    if u >= 0x8000_0000 then (u - 0x1_0000_0000) as cint else u as cint
  }

  /** An exit code stored by exec_child comes back out of the status word
      the way the wait macros read it: low byte zero, code in the next. */
  lemma ExitCodeRecovered(rc: cint)
    requires 0 <= rc < 0x100
    ensures StatusWord(rc) as int % 0x100 == 0
    ensures StatusWord(rc) as int / 0x100 % 0x100 == rc as int
  {
  }

  /** `struct pex_time`. */
  datatype PexTime = PexTime(userSeconds: int, userMicroseconds: int,
                             systemSeconds: int, systemMicroseconds: int)

  /** The part of `struct pex_obj` this back end touches: the flags, the
      number of children run so far, and the status array kept in
      `sysdep`. */
  class PexObj {
    var flags: bv32
    var count: nat
    var statuses: seq<cint>

    /** pex_init: a fresh object with no children and no statuses. */
    constructor (flags: bv32)
      ensures this.flags == PexInitFlags(flags) && count == 0 && statuses == []
    {
      this.flags := flags & !PEX_USE_PIPES;
      count := 0;
      statuses := [];
    }

    /** pex_amiga_exec_child. `rc` is what `system` returns for the
        command line and `errno` the error number it leaves. On -1 the
        error is reported and no status is stored; otherwise the status
        array grows to `count + 1` entries, the last being `rc << 8`, and
        `count` is returned as the child's identifier. */
    method ExecChild(argv: seq<string>, rc: cint, errno: int) returns (pid: int, command: string, err: Option<int>)
      requires count <= |statuses|
      modifies this
      ensures command == Command(argv)
      ensures flags == old(flags) && count == old(count)
      ensures rc == -1 ==> pid == -1 && err == Some(errno) && statuses == old(statuses)
      ensures rc != -1 ==>
        pid == count && err == None && statuses == old(statuses[..count]) + [StatusWord(rc)]
    {
      var scmd, end := BuildCommandLine(argv);
      command := scmd[..end];
      if rc == -1 {
        return -1, command, Some(errno);
      }
      statuses := statuses[..count] + [rc];
      statuses := statuses[count := StatusWord(rc)];
      pid := count;
      err := None;
    }

    /** pex_amiga_wait: the child finished inside exec_child, so this only
        hands back its stored status and zero times, and succeeds. */
    method Wait(pid: nat, time: Option<PexTime>) returns (result: int, status: cint, time': Option<PexTime>)
      requires pid < |statuses|
      ensures result == 0 && status == statuses[pid]
      ensures time' == if time.Some? then Some(PexTime(0, 0, 0, 0)) else None
    {
      if time.Some? {
        time' := Some(PexTime(0, 0, 0, 0));
      } else {
        time' := None;
      }
      status := statuses[pid];
      result := 0;
    }
  }

}
