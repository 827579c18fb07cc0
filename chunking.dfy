/** `splitIntoChunks`: cutting an outbound reply into pieces that fit one
    WhatsApp message each, without losing any of its text. */
module Chunking {
  import opened JsText

  /** A window is cut back to a newline only when that newline lies more
      than this many code units past the window's start. */
  const NewlineSlack: nat := 500

  function Min(a: int, b: int): int {
    if a <= b then a else b
  }

  /** The greatest index below `n` holding `u`, or -1. */
  function LastIndexBefore(s: JsString, u: CodeUnit, n: nat): (r: int)
    requires n <= |s|
    ensures -1 <= r < n
    ensures r >= 0 ==> s[r] == u
    ensures forall i :: r < i < n ==> s[i] != u
  {
    if n == 0 then -1
    else if s[n - 1] == u then n - 1
    else LastIndexBefore(s, u, n - 1)
  }

  /** `s.lastIndexOf(u, from)` for a one-code-unit search string: the
      greatest index at or before `from` holding `u`, or -1. */
  function LastIndexOf(s: JsString, u: CodeUnit, from: nat): (r: int)
    ensures -1 <= r < |s| && r <= from
    ensures r >= 0 ==> s[r] == u
    ensures forall i :: r < i < |s| && i <= from ==> s[i] != u
  {
    LastIndexBefore(s, u, if from < |s| then from + 1 else |s|)
  }

  /** A position where a window starting at `start` may be cut back to:
      a newline more than NewlineSlack code units past `start`. */
  ghost predicate IsNewlineCut(t: JsString, start: nat, i: int) {
    start + NewlineSlack < i < |t| && t[i] == Newline
  }

  /** Where the window that starts at `start` ends: at most `maxLen` code
      units on, cut back to the last newline at or before that bound when
      that newline lies more than NewlineSlack code units past `start`. */
  function WindowEnd(t: JsString, maxLen: nat, start: nat): (e: nat)
    requires 1 <= maxLen && start < |t|
    ensures start < e <= Min(start + maxLen, |t|)
    ensures e == Min(start + maxLen, |t|) || IsNewlineCut(t, start, e)
    ensures forall i :: e < i <= Min(start + maxLen, |t|) ==> !IsNewlineCut(t, start, i)
    ensures forall i :: i <= Min(start + maxLen, |t|) && IsNewlineCut(t, start, i) ==>
              IsNewlineCut(t, start, e)
  {
    var bound := Min(start + maxLen, |t|);
    var lastNl := LastIndexOf(t, Newline, bound);
    if lastNl > start + NewlineSlack then lastNl else bound
  }

  /** One turn of the `while` loop of `splitIntoChunks` as written, for any
      integer `maxLen` and cursor: the new cursor. `lastIndexOf` clamps a
      negative position to 0. */
  function StepAsWritten(t: JsString, maxLen: int, start: int): int {
    var bound := Min(start + maxLen, |t|);
    var lastNl := LastIndexOf(t, Newline, if bound < 0 then 0 else bound);
    if lastNl > start + NewlineSlack then lastNl else bound
  }

  /** The cursor after `k` turns of the loop as written. */
  function CursorAsWritten(t: JsString, maxLen: int, k: nat): int {
    if k == 0 then 0 else StepAsWritten(t, maxLen, CursorAsWritten(t, maxLen, k - 1))
  }

  /** With `maxLen <= 0` a turn never moves a cursor forward from a position
      in the text, and never moves it to the end of the text. */
  lemma NoProgressAsWritten(t: JsString, maxLen: int, start: int)
    requires maxLen <= 0 && start < |t|
    ensures StepAsWritten(t, maxLen, start) < |t|
    ensures 0 <= start ==> StepAsWritten(t, maxLen, start) <= start
  {
  }

  /** So for a non-empty text and `maxLen <= 0` the loop condition
      `start < t.length` holds after every number of turns: the loop never
      ends, and every turn pushes one more chunk. */
  lemma {:induction false} LoopNeverEndsAsWritten(t: JsString, maxLen: int, k: nat)
    requires maxLen <= 0 && t != []
    ensures CursorAsWritten(t, maxLen, k) < |t|
  {
    if k > 0 {
      LoopNeverEndsAsWritten(t, maxLen, k - 1);
      NoProgressAsWritten(t, maxLen, CursorAsWritten(t, maxLen, k - 1));
    }
  }

  /** For `maxLen >= 1` a turn of the loop as written ends the window where
      WindowEnd says, so the cursor always moves forward. */
  lemma StepAsWrittenIsWindowEnd(t: JsString, maxLen: nat, start: nat)
    requires 1 <= maxLen && start < |t|
    ensures StepAsWritten(t, maxLen, start) == WindowEnd(t, maxLen, start)
    ensures StepAsWritten(t, maxLen, start) > start
  {
  }

  /** The untrimmed windows the loop of `splitIntoChunks` cuts `t[start..]`
      into, in order. */
  function Segments(t: JsString, maxLen: nat, start: nat): seq<JsString>
    requires 1 <= maxLen && start <= |t|
    decreases |t| - start
  {
    if start == |t| then []
    else
      var e := WindowEnd(t, maxLen, start);
      [t[start..e]] + Segments(t, maxLen, e)
  }

  function Concat(ss: seq<JsString>): JsString {
    if ss == [] then [] else ss[0] + Concat(ss[1..])
  }

  function TrimEach(ss: seq<JsString>): (r: seq<JsString>)
    ensures |r| == |ss|
  {
    seq(|ss|, i requires 0 <= i < |ss| => Trim(ss[i]))
  }

  /** `chunks.filter(Boolean)`: the non-empty strings, in order. Only empty
      strings are dropped, so the text read in order is unchanged. */
  function KeepNonEmpty(ss: seq<JsString>): (r: seq<JsString>)
    ensures |r| <= |ss|
    ensures forall k :: 0 <= k < |r| ==> r[k] != []
    ensures forall x :: x in r <==> x in ss && x != []
    ensures Concat(r) == Concat(ss)
  {
    if ss == [] then []
    else
      var rest := KeepNonEmpty(ss[1..]);
      assert forall x :: x in ss <==> x == ss[0] || x in ss[1..];
      if ss[0] == [] then rest
      else
        assert ([ss[0]] + rest)[1..] == rest;
        [ss[0]] + rest
  }

  /** What `splitIntoChunks(text, maxLen)` returns. */
  function Chunks(text: JsString, maxLen: nat): seq<JsString>
    requires 1 <= maxLen
  {
    var t := Trim(text);
    if t == [] then []
    else if |t| <= maxLen then [t]
    else KeepNonEmpty(TrimEach(Segments(t, maxLen, 0)))
  }

  /** `splitIntoChunks(text, maxLen)`: trim, answer the empty and the short
      case directly, otherwise cut windows and drop the pieces that trim to
      nothing. */
  method SplitIntoChunks(text: JsString, maxLen: nat) returns (chunks: seq<JsString>)
    requires 1 <= maxLen
    ensures chunks == Chunks(text, maxLen)
    ensures Trim(text) == [] ==> chunks == []
    ensures Trim(text) != [] && |Trim(text)| <= maxLen ==> chunks == [Trim(text)]
    ensures forall i :: 0 <= i < |chunks| ==> 0 < |chunks[i]| <= maxLen && IsTrimmed(chunks[i])
  {
    var t := Trim(text);
    if t == [] {
      return [];
    }
    if |t| <= maxLen {
      return [t];
    }
    var pieces := CutWindows(t, maxLen);
    chunks := KeepNonEmpty(pieces);
    ChunksBounded(text, maxLen);
  }

  /** The `while` loop of `splitIntoChunks`: walk a cursor through `t` one
      window at a time and collect each window, trimmed. */
  method CutWindows(t: JsString, maxLen: nat) returns (pieces: seq<JsString>)
    requires 1 <= maxLen
    ensures pieces == TrimEach(Segments(t, maxLen, 0))
  {
    pieces := [];
    var start: nat := 0;
    while start < |t|
      invariant start <= |t|
      invariant TrimEach(Segments(t, maxLen, 0)) == pieces + TrimEach(Segments(t, maxLen, start))
      decreases |t| - start
    {
      var end := Min(start + maxLen, |t|);
      var lastNl := LastIndexOf(t, Newline, end);
      if lastNl > start + NewlineSlack {
        end := lastNl;
      }
      assert end == WindowEnd(t, maxLen, start);
      TrimEachStep(t, maxLen, start);
      pieces := pieces + [Trim(t[start..end])];
      start := end;
    }
  }

  lemma TrimEachStep(t: JsString, maxLen: nat, start: nat)
    requires 1 <= maxLen && start < |t|
    ensures var e := WindowEnd(t, maxLen, start);
            TrimEach(Segments(t, maxLen, start))
              == [Trim(t[start..e])] + TrimEach(Segments(t, maxLen, e))
  {
  }

  /** The segments are non-empty windows of at most `maxLen` code units that
      concatenate, in order, to exactly `t[start..]`. */
  lemma {:induction false} SegmentsPartition(t: JsString, maxLen: nat, start: nat)
    requires 1 <= maxLen && start <= |t|
    ensures Concat(Segments(t, maxLen, start)) == t[start..]
    ensures forall k :: 0 <= k < |Segments(t, maxLen, start)| ==>
              0 < |Segments(t, maxLen, start)[k]| <= maxLen
    decreases |t| - start
  {
    if start < |t| {
      var e := WindowEnd(t, maxLen, start);
      var ss := Segments(t, maxLen, start);
      SegmentsPartition(t, maxLen, e);
      assert ss[1..] == Segments(t, maxLen, e);
      assert t[start..] == t[start..e] + t[e..];
      forall k | 0 <= k < |ss| ensures 0 < |ss[k]| <= maxLen {
        if k > 0 { assert ss[k] == Segments(t, maxLen, e)[k - 1]; }
      }
    }
  }

  /** The `k`-th segment is the window the loop cuts at its cursor, the
      cursor being where the previous segments end. */
  lemma {:induction false} SegmentIsWindow(t: JsString, maxLen: nat, start: nat, k: nat)
    requires 1 <= maxLen && start <= |t| && k < |Segments(t, maxLen, start)|
    ensures var a := start + |Concat(Segments(t, maxLen, start)[..k])|;
            a < |t| && Segments(t, maxLen, start)[k] == t[a..WindowEnd(t, maxLen, a)]
    decreases |t| - start
  {
    var ss := Segments(t, maxLen, start);
    var e := WindowEnd(t, maxLen, start);
    if k == 0 {
      assert ss[..0] == [];
    } else {
      var rest := Segments(t, maxLen, e);
      SegmentIsWindow(t, maxLen, e, k - 1);
      assert ss[..k] == [ss[0]] + rest[..k - 1];
      assert Concat(ss[..k]) == ss[0] + Concat(rest[..k - 1]) by {
        assert ([ss[0]] + rest[..k - 1])[1..] == rest[..k - 1];
      }
      assert |ss[0]| == e - start;
      assert ss[k] == rest[k - 1];
    }
  }

  lemma {:induction false} KeepNonEmptyBounded(ss: seq<JsString>, maxLen: nat)
    requires forall k :: 0 <= k < |ss| ==> |ss[k]| <= maxLen && IsTrimmed(ss[k])
    ensures forall k :: 0 <= k < |KeepNonEmpty(ss)| ==>
              0 < |KeepNonEmpty(ss)[k]| <= maxLen && IsTrimmed(KeepNonEmpty(ss)[k])
  {
    if ss != [] {
      KeepNonEmptyBounded(ss[1..], maxLen);
      assert forall k :: 0 < k < |ss| ==> ss[1..][k - 1] == ss[k];
    }
  }

  /** Every chunk is non-empty, at most `maxLen` code units long and carries
      no white space at either end. */
  lemma ChunksBounded(text: JsString, maxLen: nat)
    requires 1 <= maxLen
    ensures forall k :: 0 <= k < |Chunks(text, maxLen)| ==>
              0 < |Chunks(text, maxLen)[k]| <= maxLen && IsTrimmed(Chunks(text, maxLen)[k])
  {
    var t := Trim(text);
    if |t| > maxLen {
      var ss := Segments(t, maxLen, 0);
      SegmentsPartition(t, maxLen, 0);
      KeepNonEmptyBounded(TrimEach(ss), maxLen);
    }
  }

  lemma {:induction false} TrimEachKeepsContent(ss: seq<JsString>)
    ensures RemoveWhiteSpace(Concat(KeepNonEmpty(TrimEach(ss)))) == RemoveWhiteSpace(Concat(ss))
  {
    if ss != [] {
      assert TrimEach(ss)[1..] == TrimEach(ss[1..]);
      TrimEachKeepsContent(ss[1..]);
      RemoveWhiteSpaceAppend(ss[0], Concat(ss[1..]));
      TrimKeepsContent(ss[0]);
      var rest := KeepNonEmpty(TrimEach(ss[1..]));
      if Trim(ss[0]) != [] {
        RemoveWhiteSpaceAppend(Trim(ss[0]), Concat(rest));
      }
    }
  }

  /** Nothing but white space is lost: the chunks, read in order, carry
      exactly the non-white-space code units of the text, in order. */
  lemma ChunksKeepContent(text: JsString, maxLen: nat)
    requires 1 <= maxLen
    ensures RemoveWhiteSpace(Concat(Chunks(text, maxLen))) == RemoveWhiteSpace(text)
  {
    var t := Trim(text);
    TrimKeepsContent(text);
    if t == [] {
      RemoveWhiteSpaceOfBlank(text);
    } else if |t| <= maxLen {
      assert Concat([t]) == t;
    } else {
      SegmentsPartition(t, maxLen, 0);
      TrimEachKeepsContent(Segments(t, maxLen, 0));
    }
  }
}
