/** Quoting a word for a shell command line. */
module ShellQuote {
  import opened Basics
  import opened Escape

  const SHELL_NEED_ESCAPE: seq<Byte> := "\"\\`$"
  const SHELL_NEED_QUOTES: seq<Byte> := SHELL_NEED_ESCAPE + "*?[" + "'()<>|&;!"
  const SHELL_NEED_ESCAPE_POSIX: seq<Byte> := "\\'"

  datatype EscapeStyle = EscapeBackslash | EscapePosix

  predicate NeedsQuotes(c: Byte) {
    c <= ' ' || c as int >= 127 || c in SHELL_NEED_QUOTES
  }

  function BackslashEscapedChar(c: Byte, bad: seq<Byte>, escapeTabNl: bool): (r: seq<Byte>)
    ensures 1 <= |r| <= 2
  {
    if escapeTabNl && c == '\n' then [BACKSLASH, 'n']
    else if escapeTabNl && c == '\t' then [BACKSLASH, 't']
    else if c == BACKSLASH || c in bad then [BACKSLASH, c]
    else [c]
  }

  function BackslashEscaped(s: seq<Byte>, bad: seq<Byte>, escapeTabNl: bool): (r: seq<Byte>)
    ensures |s| <= |r| <= 2 * |s|
  {
    if s == [] then []
    else BackslashEscapedChar(s[0], bad, escapeTabNl) + BackslashEscaped(s[1..], bad, escapeTabNl)
  }

  /** The quoted form: the word itself if no character of it is special, else all of it escaped inside quotes. */
  function ShellQuoted(s: seq<Byte>, style: EscapeStyle): seq<Byte> {
    if forall c | c in s :: !NeedsQuotes(c) then s
    else if style.EscapeBackslash? then "\"" + BackslashEscaped(s, SHELL_NEED_ESCAPE, false) + "\""
    else "$'" + BackslashEscaped(s, SHELL_NEED_ESCAPE_POSIX, true) + "'"
  }

  method StrcpyBackslashEscaped(buf: array<Byte>, t0: nat, s: seq<Byte>, bad: seq<Byte>, escapeTabNl: bool)
    returns (t: nat)
    requires t0 + 2 * |s| <= buf.Length
    modifies buf
    ensures t == t0 + |BackslashEscaped(s, bad, escapeTabNl)| && t <= t0 + 2 * |s|
    ensures buf[..t] == old(buf[..t0]) + BackslashEscaped(s, bad, escapeTabNl)
  {
    hide BackslashEscapedChar;
    t := t0;
    var i := 0;
    assert s[0..] == s;
    while i < |s|
      invariant 0 <= i <= |s| && t <= t0 + 2 * i
      invariant buf[..t] + BackslashEscaped(s[i..], bad, escapeTabNl)
             == old(buf[..t0]) + BackslashEscaped(s, bad, escapeTabNl)
    {
      ghost var before := buf[..t];
      var e := BackslashEscapedChar(s[i], bad, escapeTabNl);
      Store(buf, t, e);
      t := t + |e|;
      assert s[i..][1..] == s[i + 1..];
      Regroup(before, e, BackslashEscaped(s[i + 1..], bad, escapeTabNl));
      i := i + 1;
    }
    assert s[i..] == [];
    assert |buf[..t]| == t0 + |BackslashEscaped(s, bad, escapeTabNl)|;
  }

  lemma PlainChar(c: Byte, bad: seq<Byte>, escapeTabNl: bool)
    requires !NeedsQuotes(c) && (forall d | d in bad :: d in SHELL_NEED_QUOTES)
    ensures BackslashEscapedChar(c, bad, escapeTabNl) == [c]
  {
    assert SHELL_NEED_QUOTES[1] == BACKSLASH;
  }

  /** Characters that need no quotes need no backslash either, so they may be copied as they are. */
  lemma {:induction false} PlainPrefix(s: seq<Byte>, p: nat, bad: seq<Byte>, escapeTabNl: bool)
    requires p <= |s| && (forall k | 0 <= k < p :: !NeedsQuotes(s[k]))
    requires forall c | c in bad :: c in SHELL_NEED_QUOTES
    ensures BackslashEscaped(s, bad, escapeTabNl) == s[..p] + BackslashEscaped(s[p..], bad, escapeTabNl)
  {
    hide NeedsQuotes, BackslashEscapedChar;
    if p > 0 {
      PlainChar(s[0], bad, escapeTabNl);
      PlainPrefix(s[1..], p - 1, bad, escapeTabNl);
      assert BackslashEscaped(s, bad, escapeTabNl) == [s[0]] + BackslashEscaped(s[1..], bad, escapeTabNl);
      hide BackslashEscaped;
      assert s[1..][..p - 1] == s[1..p] && s[1..][p - 1..] == s[p..];
      assert [s[0]] + s[1..p] == s[..p];
      Regroup([s[0]], s[1..p], BackslashEscaped(s[p..], bad, escapeTabNl));
    } else {
      assert s[p..] == s;
    }
  }

  /** shell_maybe_quote: copies up to the first special character, then escapes the rest. */
  method ShellMaybeQuote(s: seq<Byte>, style: EscapeStyle) returns (r: seq<Byte>)
    requires NulFree(s)
    ensures r == ShellQuoted(s, style)
  {
    hide NeedsQuotes, BackslashEscaped;
    var p: nat := 0;
    while p < |s| && !NeedsQuotes(s[p])
      invariant p <= |s|
      invariant forall k | 0 <= k < p :: !NeedsQuotes(s[k])
    {
      p := p + 1;
    }
    if p == |s| {
      return s;
    }
    assert s[p] in s;
    if style.EscapeBackslash? {
      r := Enclose("\"", s, p, SHELL_NEED_ESCAPE, false, '"');
    } else {
      r := Enclose("$'", s, p, SHELL_NEED_ESCAPE_POSIX, true, '\'');
    }
  }

  method Enclose(open: seq<Byte>, s: seq<Byte>, p: nat, bad: seq<Byte>, escapeTabNl: bool, close: Byte)
    returns (r: seq<Byte>)
    requires p <= |s| && (forall k | 0 <= k < p :: !NeedsQuotes(s[k]))
    requires bad == SHELL_NEED_ESCAPE || bad == SHELL_NEED_ESCAPE_POSIX
    ensures r == open + BackslashEscaped(s, bad, escapeTabNl) + [close]
  {
    hide NeedsQuotes, BackslashEscaped;
    ghost var rest := BackslashEscaped(s[p..], bad, escapeTabNl);
    assert BackslashEscaped(s, bad, escapeTabNl) == s[..p] + rest by {
      PosixIsSpecial();
      PlainPrefix(s, p, bad, escapeTabNl);
    }
    Regroup(open, s[..p], rest);
    var buf := new Byte[|open| + |s| * 2 + 1 + 1];
    Store(buf, 0, open + s[..p]);
    assert buf[..|open| + p] == open + s[..p];
    var t := StrcpyBackslashEscaped(buf, |open| + p, s[p..], bad, escapeTabNl);
    Store(buf, t, [close]);
    r := buf[..t + 1];
    assert r == open + BackslashEscaped(s, bad, escapeTabNl) + [close];
    buf[t + 1] := NUL;
  }

  lemma PosixIsSpecial()
    ensures forall c | c in SHELL_NEED_ESCAPE :: c in SHELL_NEED_QUOTES
    ensures forall c | c in SHELL_NEED_ESCAPE_POSIX :: c in SHELL_NEED_QUOTES
  {
    assert SHELL_NEED_QUOTES[1] == BACKSLASH && SHELL_NEED_QUOTES[7] == '\'';
  }
}
