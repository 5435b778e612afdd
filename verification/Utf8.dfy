/** Validity of UTF-8 text. */
module Utf8 {
  import opened Basics
  import opened Escape

  /** The length that the first byte announces; 0 if it cannot begin a character. */
  function ExpectedLength(c: Byte): nat {
    var x := c as int;
    if x < 0x80 then 1
    else if 0xC0 <= x < 0xE0 then 2
    else if 0xE0 <= x < 0xF0 then 3
    else if 0xF0 <= x < 0xF8 then 4
    else if 0xF8 <= x < 0xFC then 5
    else if 0xFC <= x < 0xFE then 6
    else 0
  }

  /** The payload bits of the first byte. */
  function LeadBits(c: Byte, len: nat): nat {
    match len
    case 2 => c as int % 32
    case 3 => c as int % 16
    case 4 => c as int % 8
    case 5 => c as int % 4
    case _ => c as int % 2
  }

  /** Adds k continuation bytes from index i on. */
  function Continuation(s: seq<Byte>, i: nat, k: nat, acc: nat): (r: Option<nat>)
    requires i <= |s|
    ensures r.Some? ==> i + k <= |s| && forall j | i <= j < i + k :: s[j] as int >= 0x80
    decreases k
  {
    if k == 0 then Some(acc)
    else
      var x := At(s, i) as int;
      if 0x80 <= x < 0xC0 then Continuation(s, i + 1, k - 1, acc * 64 + x % 64) else None
  }

  function EncodedLength(unichar: nat): nat {
    if unichar < 0x80 then 1
    else if unichar < 0x800 then 2
    else if unichar < 0x10000 then 3
    else if unichar < 0x200000 then 4
    else if unichar < 0x4000000 then 5
    else 6
  }

  /** utf8_encoded_valid_unichar: the length of the character at the front, 0 if it is not valid. */
  function ValidUnichar(s: seq<Byte>): (len: nat)
    requires s != []
    ensures len <= |s|
    ensures s[0] as int < 0x80 <==> len == 1
    ensures len > 1 ==> forall j | 0 <= j < len :: s[j] as int >= 0x80
  {
    var len := ExpectedLength(s[0]);
    if len <= 1 then len
    else
      var u := Continuation(s, 1, len - 1, LeadBits(s[0], len));
      if u.Some? && EncodedLength(u.value) == len && UnicharIsValid(u.value) then len else 0
  }

  predicate IsValid(s: seq<Byte>) {
    s == [] || (var n := ValidUnichar(s); n > 0 && IsValid(s[n..]))
  }

  lemma {:induction false} ContinuationLocal(s: seq<Byte>, t: seq<Byte>, i: nat, k: nat, acc: nat)
    requires i + k <= |s| && i + k <= |t| && s[i..i + k] == t[i..i + k]
    ensures Continuation(s, i, k, acc) == Continuation(t, i, k, acc)
    decreases k
  {
    if k > 0 {
      assert s[i] == s[i..i + k][0] == t[i];
      assert s[i + 1..i + k] == s[i..i + k][1..] == t[i + 1..i + k];
      ContinuationLocal(s, t, i + 1, k - 1, acc * 64 + s[i] as int % 64);
    }
  }

  /** Whether a character is valid depends on its own bytes only. */
  lemma ValidUnicharLocal(s: seq<Byte>, t: seq<Byte>)
    requires s != [] && ValidUnichar(s) > 0
    requires |t| >= ValidUnichar(s) && t[..ValidUnichar(s)] == s[..ValidUnichar(s)]
    ensures ValidUnichar(t) == ValidUnichar(s)
  {
    var n := ValidUnichar(s);
    assert t[0] == t[..n][0] == s[0];
    if n > 1 {
      assert s[1..n] == s[..n][1..] == t[1..n];
      ContinuationLocal(s, t, 1, n - 1, LeadBits(s[0], n));
    }
  }

  lemma {:induction false} AsciiIsValid(s: seq<Byte>)
    requires forall i | 0 <= i < |s| :: s[i] as int < 0x80
    ensures IsValid(s)
  {
    if s != [] {
      AsciiIsValid(s[1..]);
    }
  }
}
