/**
 * The text of the opening handshake (section 4 of RFC 6455): blocks of lines ended by CR LF, and where
 * such a block ends in a stream. The text is a sequence of characters, as after decoding; for ASCII, which
 * the handshake consists of but for what the caller supplies, these are the octets on the wire.
 */
module HttpText {
  import opened Bytes
  import opened Boundary

  const CRLF: string := "\r\n"

  /** No CR and no LF. */
  predicate Clean(s: string)
  {
    '\r' !in s && '\n' !in s
  }

  // ---- Lines ---------------------------------------------------------------------------

  /** Index of the first CR LF. */
  function FindCrLf(s: string): (i: Option<nat>)
    ensures i.Some? ==> i.value + 2 <= |s|
  {
    if |s| < 2 then None
    else if s[0] == '\r' && s[1] == '\n' then Some(0)
    else
      var r := FindCrLf(s[1..]);
      if r.Some? then Some(r.value + 1) else None
  }

  /** `split("\r\n")` */
  function Lines(s: string): (ls: seq<string>)
    ensures |ls| >= 1
    decreases |s|
  {
    var i := FindCrLf(s);
    if i.None? then [s] else [s[..i.value]] + Lines(s[i.value + 2..])
  }

  /** Every line followed by CR LF. */
  function Joined(ls: seq<string>): (s: string)
  {
    if ls == [] then "" else ls[0] + CRLF + Joined(ls[1..])
  }

  /** A header block: its lines and the blank line that ends it. */
  function Block(ls: seq<string>): (s: string)
  {
    Joined(ls) + CRLF
  }

  predicate AllClean(ls: seq<string>)
  {
    forall l | l in ls :: Clean(l)
  }

  lemma {:induction false} FindAfterClean(line: string, rest: string)
    requires Clean(line)
    ensures FindCrLf(line + CRLF + rest) == Some(|line|)
  {
    var s := line + CRLF + rest;
    if line == "" {
      assert s[0] == '\r' && s[1] == '\n';
    } else {
      assert s[0] == line[0] && s[0] in line;
      assert s[1..] == line[1..] + CRLF + rest;
      FindAfterClean(line[1..], rest);
    }
  }

  lemma LinesCons(line: string, rest: string)
    requires Clean(line)
    ensures Lines(line + CRLF + rest) == [line] + Lines(rest)
  {
    FindAfterClean(line, rest);
    var s := line + CRLF + rest;
    assert s[..|line|] == line && s[|line| + 2..] == rest;
  }

  /** Splitting gives back the lines that were joined. */
  lemma {:induction false} LinesOfJoined(ls: seq<string>, rest: string)
    requires AllClean(ls)
    ensures Lines(Joined(ls) + rest) == ls + Lines(rest)
  {
    hide Lines, Clean;
    if ls == [] {
      assert Joined(ls) + rest == rest;
    } else {
      var tail := Joined(ls[1..]) + rest;
      assert Joined(ls) + rest == ls[0] + CRLF + tail;
      LinesCons(ls[0], tail);
      LinesOfJoined(ls[1..], rest);
      assert [ls[0]] + (ls[1..] + Lines(rest)) == ls + Lines(rest);
    }
  }

  /** The lines of a block, the blank line, and whatever follows. */
  lemma LinesOfBlock(ls: seq<string>, rest: string)
    requires AllClean(ls)
    ensures Lines(Block(ls) + rest) == ls + [""] + Lines(rest)
  {
    hide Lines, Joined, AllClean;
    assert Block(ls) + rest == Joined(ls) + (CRLF + rest);
    LinesOfJoined(ls, CRLF + rest);
    assert "" + CRLF + rest == CRLF + rest;
    LinesCons("", rest);
    assert ls + ([""] + Lines(rest)) == ls + [""] + Lines(rest);
  }

  // ---- The end of a block --------------------------------------------------------------

  const BLANK: string := "\r\n\r\n"

  /** Clean lines, none of them blank. */
  predicate Solid(ls: seq<string>)
  {
    forall l | l in ls :: Clean(l) && l != ""
  }

  predicate BlankAt(s: string, i: nat)
  {
    i + 4 <= |s| && s[i] == '\r' && s[i + 1] == '\n' && s[i + 2] == '\r' && s[i + 3] == '\n'
  }

  lemma EndsBlank(s: string, k: nat)
    requires k <= |s|
    ensures EndsWith(s[..k], BLANK) <==> k >= 4 && BlankAt(s, k - 4)
  {
    if k >= 4 {
      assert s[..k][k - 4..] == [s[k - 4], s[k - 3], s[k - 2], s[k - 1]];
    }
  }

  lemma BlockCons(ls: seq<string>, rest: string)
    requires ls != []
    ensures Block(ls) + rest == ls[0] + CRLF + (Block(ls[1..]) + rest)
    ensures |Block(ls)| == |ls[0]| + 2 + |Block(ls[1..])|
  {
  }

  /** Within a text of clean non-empty lines no blank line appears before the end of the block. */
  lemma {:induction false} NoBlankInside(ls: seq<string>, rest: string, i: nat)
    requires Solid(ls) && i + 4 < |Block(ls)|
    ensures !BlankAt(Block(ls) + rest, i)
    decreases |ls|
  {
    if ls != [] {
      var s, line, tail := Block(ls) + rest, ls[0], Block(ls[1..]) + rest;
      var n := |line|;
      BlockCons(ls, rest);
      assert line in ls && Solid(ls[1..]);
      if i < n {
        assert s[i] == line[i] && line[i] in line;
      } else if i >= n + 2 {
        assert s[n + 2..] == tail;
        NoBlankInside(ls[1..], rest, i - n - 2);
        ShiftBlank(line + CRLF, tail, i - n - 2);
      } else if i == n {
        StartsClean(ls[1..], rest);
        assert s[n + 2] == tail[0];
      } else {
        assert s[i] == '\n';
      }
    }
  }

  lemma ShiftBlank(pre: string, s: string, i: nat)
    ensures BlankAt(pre + s, |pre| + i) <==> BlankAt(s, i)
  {
  }

  lemma StartsClean(ls: seq<string>, rest: string)
    requires Solid(ls) && |Block(ls)| > 2
    ensures (Block(ls) + rest)[0] != '\r'
  {
    if ls != [] {
      assert ls[0] in ls && ls[0][0] in ls[0];
      BlockCons(ls, rest);
    }
  }

  /** So a reader that stops at the first blank line stops exactly at the end of the block. */
  lemma BlockBoundary(ls: seq<string>, rest: string)
    requires Solid(ls) && ls != []
    ensures FirstEnd(Block(ls) + rest, BLANK) == Some(|Block(ls)|)
  {
    hide Block, Solid, EndsWith, BlankAt, FirstEnd;
    var s, n := Block(ls) + rest, |Block(ls)|;
    forall k | 0 <= k < n ensures !EndsWith(s[..k], BLANK) {
      EndsBlank(s, k);
      if k >= 4 {
        NoBlankInside(ls, rest, k - 4);
      }
    }
    assert s[..n] == Block(ls);
    BlockEnds(ls);
    FirstEndIs(s, BLANK, n);
  }

  lemma {:induction false} BlockEnds(ls: seq<string>)
    requires ls != []
    ensures EndsWith(Block(ls), BLANK)
  {
    if |ls| == 1 {
      assert Block(ls) == ls[0] + BLANK;
    } else {
      BlockEnds(ls[1..]);
      assert Block(ls) == ls[0] + CRLF + Block(ls[1..]);
    }
  }

  // ---- What splitting is ---------------------------------------------------------------

  /** The lines with a CR LF between any two. */
  function Between(ls: seq<string>): (s: string)
  {
    if ls == [] then "" else if |ls| == 1 then ls[0] else ls[0] + CRLF + Between(ls[1..])
  }

  predicate CrLfAt(s: string, i: int)
  {
    0 <= i < |s| - 1 && s[i] == '\r' && s[i + 1] == '\n'
  }

  ghost predicate HasCrLf(s: string)
  {
    exists i :: CrLfAt(s, i)
  }

  lemma {:induction false} FindMeaning(s: string)
    ensures FindCrLf(s).None? <==> !HasCrLf(s)
    ensures FindCrLf(s).Some? ==> CrLfAt(s, FindCrLf(s).value) && !HasCrLf(s[..FindCrLf(s).value])
  {
    if |s| >= 2 && !CrLfAt(s, 0) {
      var t := s[1..];
      FindMeaning(t);
      forall i ensures CrLfAt(s, i + 1) <==> CrLfAt(t, i) { assert 0 <= i < |t| ==> t[i] == s[i + 1]; }
      if FindCrLf(t).Some? {
        var i := FindCrLf(t).value;
        var pre, init := s[..i + 1], t[..i];
        forall j ensures !CrLfAt(pre, j) {
          assert !CrLfAt(init, j - 1);
          assert 0 <= j < i + 1 ==> pre[j] == s[j];
        }
      } else {
        forall i ensures !CrLfAt(s, i) { assert !CrLfAt(t, i - 1); }
      }
    }
  }

  lemma BetweenFirst(line: string, ls: seq<string>)
    requires ls != []
    ensures Between([line] + ls) == line + CRLF + Between(ls)
  {
    assert ([line] + ls)[1..] == ls;
  }

  /** Splitting any text: the pieces hold no CR LF, and the text is the pieces with a CR LF between any two. */
  lemma {:induction false} LinesMeaning(s: string)
    ensures Between(Lines(s)) == s
    ensures forall l | l in Lines(s) :: !HasCrLf(l)
    decreases |s|
  {
    FindMeaning(s);
    var i := FindCrLf(s);
    hide HasCrLf, FindCrLf;
    if i.Some? {
      var line, rest := s[..i.value], s[i.value + 2..];
      assert s == line + CRLF + rest;
      LinesMeaning(rest);
      assert Lines(s) == [line] + Lines(rest);
      hide Lines;
      BetweenFirst(line, Lines(rest));
    }
  }
}
