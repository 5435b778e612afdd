/** Splitting a line into words, undoing quotes and escapes. */
module ExtractWord {
  import opened AllocUtil
  import opened Basics
  import opened Escape

  datatype Flags = Flags(relax: bool, cunescape: bool, cunescapeRelax: bool,
                         unquote: bool, dontCoalesce: bool, retainEscape: bool)

  /** What a call leaves behind: the return value, the word, and the caller's cursor. */
  datatype Outcome =
    | Word(text: seq<Byte>, next: Option<nat>)  // returns 1; None is a cursor set to NULL
    | Finished                                  // returns 0; no word, cursor NULL
    | Invalid(at: nat)                          // -EINVAL; the cursor stays at the offending character
    | NoMemory                                  // -ENOMEM

  /** The first index from i on that holds no separator. */
  function SkipSeparators(s: seq<Byte>, i: nat, separators: seq<Byte>): (j: nat)
    requires i <= |s|
    ensures i <= j <= |s|
    ensures j < |s| ==> s[j] !in separators
    decreases |s| - i
  {
    if i < |s| && s[i] in separators then SkipSeparators(s, i + 1, separators) else i
  }

  /** A word from index i on, given the open quote (or NUL), a pending backslash and the text so far. */
  function Scan(s: seq<Byte>, i: nat, quote: Byte, backslash: bool, out: seq<Byte>,
                separators: seq<Byte>, fl: Flags): (r: Outcome)
    requires i <= |s|
    ensures !r.Finished? && !r.NoMemory?
    ensures r.Word? && r.next.Some? ==> i < r.next.value <= |s|
    ensures r.Word? ==> |r.text| <= |out| + (|s| - i) + (if backslash then 1 else 0)
    ensures r.Invalid? ==> i <= r.at <= |s|
    decreases |s| - i
  {
    if backslash then
      if i == |s| then
        if fl.cunescapeRelax && (quote == NUL || fl.relax) then Word(out + [BACKSLASH], None)
        else if fl.relax then Word(out, None)
        else Invalid(i)
      else if fl.cunescape then
        var u := CUnescapeOne(s[i..], false);
        if u.One? then Scan(s, i + u.consumed, quote, false, out + Emitted(u), separators, fl)
        else if fl.cunescapeRelax then Scan(s, i + 1, quote, false, out + [BACKSLASH, s[i]], separators, fl)
        else Invalid(i)
      else Scan(s, i + 1, quote, false, out + [s[i]], separators, fl)
    else if quote != NUL then
      if i == |s| then if fl.relax then Word(out, None) else Invalid(i)
      else if s[i] == quote then Scan(s, i + 1, NUL, false, out, separators, fl)
      else if s[i] == BACKSLASH && !fl.retainEscape then Scan(s, i + 1, quote, true, out, separators, fl)
      else Scan(s, i + 1, quote, false, out + [s[i]], separators, fl)
    else
      if i == |s| then Word(out, None)
      else if (s[i] == '\'' || s[i] == '"') && fl.unquote then Scan(s, i + 1, s[i], false, out, separators, fl)
      else if s[i] == BACKSLASH && !fl.retainEscape then Scan(s, i + 1, NUL, true, out, separators, fl)
      else if s[i] in separators then
        if fl.dontCoalesce then Word(out, Some(i + 1))
        else
          var j := SkipSeparators(s, i, separators);
          Word(out, if j == |s| then None else Some(j))
      else Scan(s, i + 1, NUL, false, out + [s[i]], separators, fl)
  }

  /** One call of extract_first_word on the NUL-terminated string s with the cursor at p. */
  function Extract(s: seq<Byte>, p: Option<nat>, separators: seq<Byte>, fl: Flags): (r: Outcome)
    requires p.Some? ==> p.value <= |s|
    ensures !r.NoMemory?
    ensures p.Some? && r.Word? && r.next.Some? ==> p.value < r.next.value <= |s|
    ensures p.None? ==> r.Finished?
    ensures r.Word? ==> |r.text| <= |s|
  {
    if p.None? then Finished
    else if fl.dontCoalesce then
      if p.value == |s| then Word([], None)
      else if s[p.value] in separators then Word([], Some(p.value + 1))
      else Scan(s, p.value, NUL, false, [], separators, fl)
    else
      var j := SkipSeparators(s, p.value, separators);
      if j == |s| then Finished else Scan(s, j, NUL, false, [], separators, fl)
  }

  // ---------------------------------------------------------------- the loops

  /** Makes room for one more character and the terminator, then appends it. */
  method Append(buf: array<Byte>, sz: nat, c: Byte) returns (q: array?<Byte>)
    requires sz <= buf.Length
    modifies buf
    ensures q == null ==> sz + 2 > SIZE_MAX / 2
    ensures q != null ==> (q == buf || fresh(q)) && sz + 2 <= q.Length && q[..sz + 1] == old(buf[..sz]) + [c]
  {
    q := GreedyRealloc(buf, sz + 2, 1);
    if q != null {
      q[sz] := c;
    }
  }

  /**
   * extract_first_word. Besides computing Extract it never indexes the string beyond its terminator
   * nor the word beyond the allocated size, and runs out of memory only on a string too long to be
   * doubled.
   */
  method ExtractFirstWord(s: seq<Byte>, p: Option<nat>, separators: Option<seq<Byte>>, fl: Flags)
    returns (r: Outcome)
    requires NulFree(s) && (p.Some? ==> p.value <= |s|)
    requires separators.Some? ==> NulFree(separators.value)
    ensures r.NoMemory? ==> |s| + 7 > SIZE_MAX / 2
    ensures !r.NoMemory? ==>
              r == Extract(s, p, if separators.Some? then separators.value else WHITESPACE, fl)
  {
    if p.None? {
      return Finished;
    }
    var seps := if separators.Some? then separators.value else WHITESPACE;
    var i: nat := p.value;
    if fl.dontCoalesce {
      if i == |s| {
        return Word([], None);
      }
      if s[i] in seps {
        return Word([], Some(i + 1));
      }
    } else {
      while i < |s| && s[i] in seps
        invariant i <= |s|
        invariant SkipSeparators(s, i, seps) == SkipSeparators(s, p.value, seps)
      {
        i := i + 1;
      }
      if i == |s| {
        return Finished;
      }
    }
    r := ScanWord(s, i, seps, fl);
  }

  /** The main loop of extract_first_word: one pass handles an escape, a quoted run or an unquoted run. */
  method ScanWord(s: seq<Byte>, start: nat, seps: seq<Byte>, fl: Flags) returns (r: Outcome)
    requires start <= |s|
    ensures r.NoMemory? ==> |s| + 7 > SIZE_MAX / 2
    ensures !r.NoMemory? ==> r == Scan(s, start, NUL, false, [], seps, fl)
  {
    hide Scan;
    var none := new Byte[0];
    var grown := GreedyRealloc(none, 1, 1);
    var buf: array<Byte> := grown;
    var sz: nat, i: nat := 0, start;
    var quote, backslash := NUL, false;
    assert buf[..sz] == [];
    while true
      invariant i <= |s| && sz + (if backslash then 1 else 0) <= i
      invariant fresh(buf) && sz < buf.Length
      invariant Scan(s, i, quote, backslash, buf[..sz], seps, fl) == Scan(s, start, NUL, false, [], seps, fl)
      decreases |s| - i
    {
      var done;
      if backslash {
        done, buf, sz, i := AfterBackslash(s, i, quote, buf, sz, seps, fl);
        backslash := false;
      } else if quote != NUL {
        done, buf, sz, i, quote, backslash := InsideQuotes(s, i, quote, buf, sz, seps, fl);
      } else {
        done, buf, sz, i, quote, backslash := OutsideQuotes(s, i, buf, sz, seps, fl);
      }
      if done.Some? {
        return done.value;
      }
      i := i + 1;
    }
  }

  method AfterBackslash(s: seq<Byte>, start: nat, quote: Byte, buf0: array<Byte>, sz0: nat, seps: seq<Byte>, fl: Flags)
    returns (done: Option<Outcome>, buf: array<Byte>, sz: nat, i: nat)
    requires start <= |s| && sz0 < buf0.Length && sz0 + 1 <= start
    modifies buf0
    ensures buf == buf0 || fresh(buf)
    ensures done == Some(NoMemory) ==> sz0 + 7 > SIZE_MAX / 2
    ensures done.Some? && done.value != NoMemory ==>
              done.value == Scan(s, start, quote, true, old(buf0[..sz0]), seps, fl)
    ensures done.None? ==> start <= i < |s| && sz < buf.Length && sz <= i + 1
    ensures done.None? ==>
              Scan(s, i + 1, quote, false, buf[..sz], seps, fl) == Scan(s, start, quote, true, old(buf0[..sz0]), seps, fl)
  {
    hide CUnescapeOne, Utf8Encode, SkipSeparators;
    sz, i, buf := sz0, start, buf0;
    var q := GreedyRealloc(buf, sz + 7, 1);
    if q == null {
      return Some(NoMemory), buf, sz, i;
    }
    assert q[..sz] == q[..buf.Length][..sz] == buf[..sz];
    buf := q;
    if i == |s| {
      if fl.cunescapeRelax && (quote == NUL || fl.relax) {
        Store(buf, sz, [BACKSLASH]);
        sz := sz + 1;
        done := Terminated(buf, sz, None);
      } else if fl.relax {
        done := Terminated(buf, sz, None);
      } else {
        done := Some(Invalid(i));
      }
      return;
    }
    var e := [s[i]];
    if fl.cunescape {
      var u := CUnescapeOne(s[i..], false);
      if u.One? {
        e := Emitted(u);
        i := i + u.consumed - 1;
      } else if fl.cunescapeRelax {
        e := [BACKSLASH, s[i]];
      } else {
        return Some(Invalid(i)), buf, sz, i;
      }
    }
    Store(buf, sz, e);
    sz := sz + |e|;
    done := None;
  }

  method InsideQuotes(s: seq<Byte>, start: nat, quote0: Byte, buf0: array<Byte>, sz0: nat, seps: seq<Byte>, fl: Flags)
    returns (done: Option<Outcome>, buf: array<Byte>, sz: nat, i: nat, quote: Byte, backslash: bool)
    requires start <= |s| && sz0 < buf0.Length && sz0 <= start && quote0 != NUL
    modifies buf0
    ensures buf == buf0 || fresh(buf)
    ensures done == Some(NoMemory) ==> |s| + 2 > SIZE_MAX / 2
    ensures done.Some? && done.value != NoMemory ==>
              done.value == Scan(s, start, quote0, false, old(buf0[..sz0]), seps, fl)
    ensures done.None? ==> start <= i < |s| && sz < buf.Length && sz <= i
    ensures done.None? ==>
              Scan(s, i + 1, quote, backslash, buf[..sz], seps, fl) == Scan(s, start, quote0, false, old(buf0[..sz0]), seps, fl)
  {
    hide CUnescapeOne, Utf8Encode, SkipSeparators;
    sz, i, buf, quote, backslash, done := sz0, start, buf0, quote0, false, None;
    while true
      invariant start <= i <= |s| && sz <= i && sz < buf.Length
      invariant buf == buf0 || fresh(buf)
      invariant Scan(s, i, quote0, false, buf[..sz], seps, fl) == Scan(s, start, quote0, false, old(buf0[..sz0]), seps, fl)
      decreases |s| - i
    {
      if i == |s| {
        if fl.relax {
          done := Terminated(buf, sz, None);
        } else {
          done := Some(Invalid(i));
        }
        return;
      } else if s[i] == quote {
        quote := NUL;
        return;
      } else if s[i] == BACKSLASH && !fl.retainEscape {
        backslash := true;
        return;
      }
      var q := Append(buf, sz, s[i]);
      if q == null {
        done := Some(NoMemory);
        return;
      }
      buf, sz := q, sz + 1;
      i := i + 1;
    }
  }

  method OutsideQuotes(s: seq<Byte>, start: nat, buf0: array<Byte>, sz0: nat, seps: seq<Byte>, fl: Flags)
    returns (done: Option<Outcome>, buf: array<Byte>, sz: nat, i: nat, quote: Byte, backslash: bool)
    requires start <= |s| && sz0 < buf0.Length && sz0 <= start
    modifies buf0
    ensures buf == buf0 || fresh(buf)
    ensures done == Some(NoMemory) ==> |s| + 2 > SIZE_MAX / 2
    ensures done.Some? && done.value != NoMemory ==>
              done.value == Scan(s, start, NUL, false, old(buf0[..sz0]), seps, fl)
    ensures done.None? ==> start <= i < |s| && sz < buf.Length && sz <= i
    ensures done.None? ==>
              Scan(s, i + 1, quote, backslash, buf[..sz], seps, fl) == Scan(s, start, NUL, false, old(buf0[..sz0]), seps, fl)
  {
    hide CUnescapeOne, Utf8Encode, SkipSeparators;
    sz, i, buf, quote, backslash, done := sz0, start, buf0, NUL, false, None;
    while true
      invariant start <= i <= |s| && sz <= i && sz < buf.Length
      invariant buf == buf0 || fresh(buf)
      invariant Scan(s, i, NUL, false, buf[..sz], seps, fl) == Scan(s, start, NUL, false, old(buf0[..sz0]), seps, fl)
      decreases |s| - i
    {
      if i == |s| {
        done := Terminated(buf, sz, None);
        return;
      } else if (s[i] == '\'' || s[i] == '"') && fl.unquote {
        quote := s[i];
        return;
      } else if s[i] == BACKSLASH && !fl.retainEscape {
        backslash := true;
        return;
      } else if s[i] in seps {
        if fl.dontCoalesce {
          done := Terminated(buf, sz, Some(i + 1));
        } else {
          var j := SkipCoalesced(s, i, seps);
          done := Terminated(buf, sz, if j == |s| then None else Some(j));
        }
        return;
      }
      var q := Append(buf, sz, s[i]);
      if q == null {
        done := Some(NoMemory);
        return;
      }
      buf, sz := q, sz + 1;
      i := i + 1;
    }
  }

  /** Writes the final NUL, inside the allocation, and hands the word out. */
  method Terminated(buf: array<Byte>, sz: nat, next: Option<nat>) returns (done: Option<Outcome>)
    requires sz < buf.Length
    modifies buf
    ensures done == Some(Word(old(buf[..sz]), next))
  {
    buf[sz] := NUL;
    done := Some(Word(buf[..sz], next));
  }

  method SkipCoalesced(s: seq<Byte>, start: nat, seps: seq<Byte>) returns (i: nat)
    requires start <= |s|
    ensures i == SkipSeparators(s, start, seps)
  {
    i := start;
    while i < |s| && s[i] in seps
      invariant i <= |s| && SkipSeparators(s, i, seps) == SkipSeparators(s, start, seps)
    {
      i := i + 1;
    }
  }
}
