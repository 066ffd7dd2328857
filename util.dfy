/**
 * The helper library of the shell (lib/util.c): `startsWith`, `isNumber` and
 * `readLine`.  The file descriptor `readLine` reads from is the sequence of bytes
 * it would deliver, followed either by end of file or by a failing `read`.
 */
module Util {
  import opened Wrappers
  import opened CString

  /** The character a C string starts with; the terminating NUL for the empty string. */
  function FirstChar(s: string): char {
    if s == [] then '\0' else s[0]
  }

  /**
   * `startsWith(conts, contd)`: the first occurrence of `contd` in `conts`, provided
   * the two strings begin with the same character.  This is not a prefix test.
   */
  function StartsWith(conts: string, contd: string): (r: Option<nat>)
    ensures |contd| > |conts| ==> r == None
    ensures r.Some? <==> Contains(conts, contd) && FirstChar(contd) == FirstChar(conts)
    ensures r.Some? ==> OccursAt(conts, contd, r.value)
    ensures r.Some? ==> forall j: nat :: j < r.value ==> !OccursAt(conts, contd, j)
  {
    var ptr := FindSub(conts, contd);
    if |contd| > |conts| then None
    else if ptr.Some? && FirstChar(contd) == FirstChar(conts) then ptr
    else None
  }

  /** A needle that is a non-empty prefix of the haystack is found at index 0. */
  lemma StartsWithPrefix(conts: string, contd: string)
    requires contd != [] && contd <= conts
    ensures StartsWith(conts, contd) == Some(0)
  {
    assert OccursAt(conts, contd, 0);
  }

  /** The test only compares first characters: "ab" is found inside "axab" at index 2. */
  lemma StartsWithNotPrefix()
    ensures StartsWith("axab", "ab") == Some(2)
  {
    var h, n := "axab", "ab";
    assert !OccursAt(h, n, 0) by { assert h[0..2] == "ax"; }
    assert !OccursAt(h, n, 1) by { assert h[1..3] == "xa"; }
    assert OccursAt(h, n, 2) by { assert h[2..4] == "ab"; }
  }

  /** The empty needle is only accepted by the empty haystack. */
  lemma StartsWithEmpty(conts: string)
    requires '\0' !in conts
    ensures StartsWith(conts, "").Some? <==> conts == ""
  {
    assert OccursAt(conts, "", 0);
  }

  /** `isNumber`: every character is a decimal digit (vacuously true for ""). */
  function IsNumber(s: string): (r: bool)
    ensures r <==> forall i :: 0 <= i < |s| ==> IsDigit(s[i])
  {
    if s == [] then true
    else IsDigit(s[0]) && IsNumber(s[1..])
  }

  newtype byte = b: int | 0 <= b < 256

  const NEWLINE: byte := 10
  const NUL: byte := 0

  /** The bytes one call consumes: up to and including the first newline, or all of them. */
  function LineOf(input: seq<byte>): (line: seq<byte>)
    ensures line <= input
    ensures NEWLINE in line ==> line[|line| - 1] == NEWLINE && NEWLINE !in line[..|line| - 1]
    ensures NEWLINE !in line ==> line == input
  {
    if input == [] then []
    else if input[0] == NEWLINE then [NEWLINE]
    else
      var rest := LineOf(input[1..]);
      assert ([input[0]] + rest)[1..] == rest;
      [input[0]] + rest
  }

  /** The line ends at the first newline, or with the input. */
  lemma {:induction false} LineOfIs(input: seq<byte>, k: nat)
    requires k <= |input| && NEWLINE !in input[..k]
    requires k < |input| ==> input[k] == NEWLINE
    ensures LineOf(input) == if k == |input| then input else input[..k + 1]
  {
    if k > 0 {
      assert input[1..][..k - 1] == input[1..k];
      LineOfIs(input[1..], k - 1);
      if k < |input| {
        assert input[..k + 1] == [input[0]] + input[1..][..k];
      }
    }
  }

  function Min(a: int, b: int): int {
    if a <= b then a else b
  }

  /** The bytes of the line that fit in a buffer of `sz` bytes with room for the NUL. */
  function Stored(input: seq<byte>, sz: nat): (s: seq<byte>)
    requires sz > 0
    ensures |s| <= sz - 1 && s <= LineOf(input)
    ensures |LineOf(input)| < sz ==> s == LineOf(input)
    ensures |LineOf(input)| >= sz ==> |s| == sz - 1
  {
    LineOf(input)[..Min(|LineOf(input)|, sz - 1)]
  }

  /**
   * `b` is the buffer `was` after `s` was written at its start, followed by a NUL
   * when `nul` holds; the bytes after them are untouched.
   */
  ghost predicate Holds(b: seq<byte>, was: seq<byte>, s: seq<byte>, nul: bool) {
    var end := |s| + (if nul then 1 else 0);
    |b| == |was| && end <= |b| &&
    b[..|s|] == s && (nul ==> b[|s|] == NUL) && b[end..] == was[end..]
  }

  /** Writing one more byte right after `s` extends what the buffer holds. */
  lemma HoldsPush(b: seq<byte>, was: seq<byte>, s: seq<byte>, x: byte)
    requires Holds(b, was, s, false) && |s| < |b|
    ensures Holds(b[|s| := x], was, s + [x], false)
  {
    var b' := b[|s| := x];
    assert b'[..|s| + 1] == b[..|s|] + [x];
    assert b'[|s| + 1..] == b[|s| + 1..];
  }

  /** Writing the NUL right after `s` terminates it. */
  lemma HoldsTerminate(b: seq<byte>, was: seq<byte>, s: seq<byte>)
    requires Holds(b, was, s, false) && |s| < |b|
    ensures Holds(b[|s| := NUL], was, s, true)
  {
    var b' := b[|s| := NUL];
    assert b'[..|s|] == b[..|s|];
    assert b'[|s| + 1..] == b[|s| + 1..];
  }

  /** Where the reading loop stops, the bytes read so far are the whole line. */
  lemma LoopExit(input: seq<byte>, i: nat, newline: bool)
    requires i <= |input|
    requires newline ==> 0 < i && input[i - 1] == NEWLINE && NEWLINE !in input[..i - 1]
    requires !newline ==> i == |input| && NEWLINE !in input[..i]
    ensures LineOf(input) == input[..i]
    ensures newline <==> NEWLINE in input
  {
    if newline {
      LineOfIs(input, i - 1);
      assert input[i - 1] in input;
    } else {
      assert input[..i] == input;
      LineOfIs(input, i);
    }
  }

  /** What fits in the buffer is the first `sz - 1` bytes of the line. */
  lemma StoredPrefix(input: seq<byte>, i: nat, sz: nat, totRead: nat)
    requires sz > 0 && i <= |input| && LineOf(input) == input[..i] && totRead == Min(i, sz - 1)
    ensures Stored(input, sz) == input[..totRead]
  {
    assert input[..i][..totRead] == input[..totRead];
  }

  /**
   * What `readLine` returns once its arguments are valid, and whether it writes the
   * terminating NUL: -1 when `read` fails before a newline arrives, 0 without a NUL
   * when end of file comes with nothing stored, and otherwise the number of bytes
   * stored, NUL-terminated.
   */
  function ReadStatus(input: seq<byte>, failsAtEnd: bool, sz: nat): (res: (int, bool))
    requires sz > 0
    ensures -1 <= res.0 <= sz - 1
    ensures res.0 == -1 <==> NEWLINE !in input && failsAtEnd
    ensures res.1 <==> res.0 > 0 || NEWLINE in input
    ensures res.0 != -1 ==> res.0 == |Stored(input, sz)|
    ensures input == [] && !failsAtEnd ==> res == (0, false)
  {
    if NEWLINE !in input && failsAtEnd then (-1, false)
    else if NEWLINE !in input && Stored(input, sz) == [] then (0, false)
    else (|Stored(input, sz)|, true)
  }

  /**
   * The reading loop of `readLine`: one successful one-byte `read` per turn until
   * a newline or the end of the input, storing what fits in front of the NUL.
   */
  method CopyLine(input: seq<byte>, buffer: array<byte>, sz: nat)
    returns (totRead: nat, i: nat, newline: bool)
    requires 0 < sz <= buffer.Length
    modifies buffer
    ensures i == |LineOf(input)| && (newline <==> NEWLINE in input)
    ensures totRead == |Stored(input, sz)| && totRead < buffer.Length
    ensures Holds(buffer[..], old(buffer[..]), Stored(input, sz), false)
  {
    ghost var was := buffer[..];
    totRead, i := 0, 0;
    newline := false;
    // each turn is one successful one-byte `read`
    while i < |input|
      invariant i <= |input| && NEWLINE !in input[..i]
      invariant totRead == Min(i, sz - 1)
      invariant Holds(buffer[..], was, input[..totRead], false)
    {
      var ch := input[i];
      assert input[..i + 1] == input[..i] + [ch];
      i := i + 1;
      if totRead < sz - 1 {
        HoldsPush(buffer[..], was, input[..totRead], ch);
        assert input[..totRead + 1] == input[..totRead] + [ch];
        buffer[totRead] := ch;
        totRead := totRead + 1;
      }
      if ch == NEWLINE {
        newline := true;
        break;
      }
    }
    LoopExit(input, i, newline);
    StoredPrefix(input, i, sz, totRead);
  }

  /**
   * `readLine(fd, buffer, sz)`.  `consumed` is how many bytes of `input` the call
   * took from the descriptor; `einval` says that errno was set to EINVAL.
   */
  method ReadLine(input: seq<byte>, failsAtEnd: bool, buffer: array?<byte>, sz: nat)
    returns (r: int, einval: bool, consumed: nat)
    requires buffer != null ==> sz <= buffer.Length
    modifies buffer
    ensures einval <==> sz == 0 || buffer == null
    ensures einval ==> r == -1 && consumed == 0
    ensures einval && buffer != null ==> buffer[..] == old(buffer[..])
    ensures !einval ==>
              consumed == |LineOf(input)| && r == ReadStatus(input, failsAtEnd, sz).0 &&
              Holds(buffer[..], old(buffer[..]), Stored(input, sz), ReadStatus(input, failsAtEnd, sz).1)
  {
    if sz == 0 || buffer == null {
      return -1, true, 0;
    }
    einval := false;
    ghost var was := buffer[..];
    var totRead, i, newline := CopyLine(input, buffer, sz);
    if !newline && failsAtEnd {
      assert ReadStatus(input, failsAtEnd, sz) == (-1, false);
      return -1, false, i;
    }
    if !newline && totRead == 0 {
      assert ReadStatus(input, failsAtEnd, sz) == (0, false);
      return 0, false, i;
    }
    assert ReadStatus(input, failsAtEnd, sz) == (totRead, true);
    HoldsTerminate(buffer[..], was, Stored(input, sz));
    buffer[totRead] := NUL;
    return totRead, false, i;
  }
}
