/** `split_message`: chunks a reply under a character budget, preferring to break just
    before the last ASCII space of each window. */
module Chunking {
  import opened Strings

  /** `text.rfind(' ', 0, max_length)`, or `max_length` when the window holds no space. */
  function SplitPoint(text: string, maxLen: int): (sp: int)
    ensures 0 <= maxLen ==> 0 <= sp <= maxLen
    ensures 0 <= maxLen < |text| && sp < maxLen ==>
              text[sp] == ' ' && forall j :: sp < j < maxLen ==> text[j] != ' '
    ensures 0 <= maxLen < |text| && sp == maxLen ==> forall j :: 0 <= j < maxLen ==> text[j] != ' '
  {
    var p := RFind(text, ' ', maxLen);
    if p == -1 then maxLen else p
  }

  /** The loop of `split_message` reaches its exit: every pass it makes moves the split
      point forward, until at most `maxLen` characters remain. A pass whose split point
      is 0 (the window's only space is its first character), or a budget below 1, means
      the loop never exits. */
  predicate Halts(text: string, maxLen: int)
    ensures |text| <= maxLen ==> Halts(text, maxLen)
    ensures Halts(text, maxLen) && |text| > maxLen ==> 1 <= maxLen && 0 < SplitPoint(text, maxLen)
    decreases |text|
  {
    || |text| <= maxLen
    || (1 <= maxLen && 0 < SplitPoint(text, maxLen) && Halts(text[SplitPoint(text, maxLen)..], maxLen))
  }

  /** `split_message(text, max_length)`, as written, for the inputs on which it returns.
      The cut is the Python slice pair `text[:split_point]`, `text[split_point:]`; on a
      halting input the split point always lies inside the text. */
  function SplitMessage(text: string, maxLen: int): (parts: seq<string>)
    requires Halts(text, maxLen)
    ensures |parts| >= 1
    ensures |text| <= maxLen ==> parts == [text]
    ensures |text| > maxLen ==> |parts| >= 2
    decreases |text|
  {
    if |text| <= maxLen then [text]
    else
      var sp := SplitPoint(text, maxLen);
      [text[..sp]] + SplitMessage(text[sp..], maxLen)
  }

  // ---------------------------------------------------------------------------
  // What a returned chunking looks like.
  // ---------------------------------------------------------------------------

  /** Every part fits within `maxLen` characters. */
  ghost predicate AllWithin(parts: seq<string>, maxLen: int) {
    forall k :: 0 <= k < |parts| ==> |parts[k]| <= maxLen
  }

  /** No part is empty. */
  ghost predicate NoneEmpty(parts: seq<string>) {
    forall k :: 0 <= k < |parts| ==> |parts[k]| > 0
  }

  /** `parts` is a chunking of `text` under `maxLen`: at least one part, joined back they
      give the text, each fits the budget, and when there are several none is empty. */
  ghost predicate Covers(parts: seq<string>, text: string, maxLen: int) {
    && |parts| >= 1
    && Concat(parts) == text
    && AllWithin(parts, maxLen)
    && (|parts| > 1 ==> NoneEmpty(parts))
  }

  /** Cutting a non-empty prefix within the budget off the front of a chunking of the rest. */
  lemma ConsCovers(text: string, sp: int, rest: seq<string>, maxLen: int)
    requires 0 < sp <= maxLen < |text|
    requires Covers(rest, text[sp..], maxLen)
    ensures Covers([text[..sp]] + rest, text, maxLen)
  {
    var parts := [text[..sp]] + rest;
    assert parts[1..] == rest;
    assert text[..sp] + text[sp..] == text;
    if |rest| == 1 {
      assert Concat(rest) == rest[0] + Concat(rest[1..]);
      assert rest[0] == text[sp..];
    }
    forall k | 1 <= k < |parts|
      ensures parts[k] == rest[k - 1]
    {
    }
  }

  /** When it returns, `split_message` loses nothing, keeps every part within the budget
      (the last one included), and leaves no part empty once the loop was entered. */
  lemma {:induction false} SplitMessageCovers(text: string, maxLen: int)
    requires Halts(text, maxLen)
    ensures Covers(SplitMessage(text, maxLen), text, maxLen)
    decreases |text|
  {
    if |text| > maxLen {
      var sp := SplitPoint(text, maxLen);
      SplitMessageCovers(text[sp..], maxLen);
      ConsCovers(text, sp, SplitMessage(text[sp..], maxLen), maxLen);
    }
  }

  /** How consecutive parts meet: a full-length non-final part was a hard cut and holds no
      space; a shorter one was cut before a space, which opens the next part. */
  ghost predicate BreaksAtSpaces(parts: seq<string>, maxLen: int) {
    && (forall k :: 0 <= k < |parts| - 1 && |parts[k]| == maxLen ==> ' ' !in parts[k])
    && (forall k :: 0 <= k < |parts| - 1 && |parts[k]| < maxLen ==> |parts[k + 1]| > 0 && parts[k + 1][0] == ' ')
  }

  lemma BreaksCons(head: string, rest: seq<string>, maxLen: int)
    requires BreaksAtSpaces(rest, maxLen)
    requires |head| == maxLen ==> ' ' !in head
    requires |head| < maxLen ==> |rest| > 0 && |rest[0]| > 0 && rest[0][0] == ' '
    ensures BreaksAtSpaces([head] + rest, maxLen)
  {
    var parts := [head] + rest;
    forall k | 1 <= k < |parts|
      ensures parts[k] == rest[k - 1]
    {
    }
  }

  lemma {:induction false} SplitMessageBreaks(text: string, maxLen: int)
    requires Halts(text, maxLen)
    ensures BreaksAtSpaces(SplitMessage(text, maxLen), maxLen)
    decreases |text|
  {
    if |text| > maxLen {
      var sp := SplitPoint(text, maxLen);
      var head := text[..sp];
      var rest := SplitMessage(text[sp..], maxLen);
      SplitMessageBreaks(text[sp..], maxLen);
      if |head| == maxLen {
        assert forall j :: 0 <= j < |head| ==> head[j] == text[j];
      } else {
        SplitMessageCovers(text[sp..], maxLen);
        assert Concat(rest) == rest[0] + Concat(rest[1..]);
        if |rest| == 1 {
          assert rest[0] == text[sp..];
        }
        assert rest[0][0] == text[sp];
      }
      BreaksCons(head, rest, maxLen);
    }
  }

  // ---------------------------------------------------------------------------
  // The split rule, stated independently of `rfind`.
  // ---------------------------------------------------------------------------

  /** Cutting `text` at `i` follows the rule: just before the last space among the first
      `maxLen` characters when that space is not the first character, or at `maxLen` when
      there is no space there at all. */
  ghost predicate IsCut(text: string, i: int, maxLen: int)
    requires 1 <= maxLen < |text|
  {
    || (i == maxLen && forall j :: 0 <= j < maxLen ==> text[j] != ' ')
    || (0 < i < maxLen && text[i] == ' ' && forall j :: i < j < maxLen ==> text[j] != ' ')
  }

  /** `parts` is a chunking of `text` made by repeated cuts that follow the rule. */
  ghost predicate IsChunking(text: string, parts: seq<string>, maxLen: int)
    decreases |parts|
  {
    if |text| <= maxLen then parts == [text]
    else
      && 1 <= maxLen
      && |parts| >= 2
      && IsCut(text, |parts[0]|, maxLen)
      && parts[0] == text[..|parts[0]|]
      && IsChunking(text[|parts[0]|..], parts[1..], maxLen)
  }

  /** A cut follows the rule exactly when it is at a positive split point. */
  lemma CutIsSplitPoint(text: string, i: int, maxLen: int)
    requires 1 <= maxLen < |text|
    ensures IsCut(text, i, maxLen) <==> (i == SplitPoint(text, maxLen) && 0 < i)
  {
    var sp := SplitPoint(text, maxLen);
    if IsCut(text, i, maxLen) && i < maxLen {
      assert text[i] == ' ';
      assert sp != maxLen;
    }
  }

  /** Every chunking `split_message` returns follows the split rule. */
  lemma {:induction false} SplitMessageFollowsRule(text: string, maxLen: int)
    requires Halts(text, maxLen)
    ensures IsChunking(text, SplitMessage(text, maxLen), maxLen)
    decreases |text|
  {
    if |text| > maxLen {
      var sp := SplitPoint(text, maxLen);
      var parts := SplitMessage(text, maxLen);
      CutIsSplitPoint(text, sp, maxLen);
      assert parts[1..] == SplitMessage(text[sp..], maxLen);
      SplitMessageFollowsRule(text[sp..], maxLen);
    }
  }

  /** The split rule determines the chunking: whatever follows it is what `split_message`
      returns, and its existence means the loop halts. */
  lemma {:induction false} RuleDeterminesSplit(text: string, parts: seq<string>, maxLen: int)
    requires IsChunking(text, parts, maxLen)
    ensures Halts(text, maxLen)
    ensures parts == SplitMessage(text, maxLen)
    decreases |parts|
  {
    if |text| > maxLen {
      var i := |parts[0]|;
      var rest := text[i..];
      CutIsSplitPoint(text, i, maxLen);
      RuleDeterminesSplit(rest, parts[1..], maxLen);
      assert Halts(text, maxLen);
      assert SplitMessage(text, maxLen) == [text[..i]] + SplitMessage(rest, maxLen);
      assert parts == [parts[0]] + parts[1..];
    }
  }

  /** How many windows of `m` characters a text of `n` characters fills, the last one possibly
      partial; an empty text still makes one (empty) part. */
  function HardCuts(n: nat, m: int): (c: nat)
    requires m >= 1
    ensures c >= 1
    ensures n > m ==> c >= 2
    decreases n
  {
    if n <= m then 1 else 1 + HardCuts(n - m, m)
  }

  /** The window count is the ceiling of `n / m`, and 1 for an empty text. */
  lemma {:induction false} HardCutsIsCeiling(n: nat, m: int)
    requires m >= 1
    ensures HardCuts(n, m) == if n == 0 then 1 else (n + m - 1) / m
    decreases n
  {
    if n > m {
      HardCutsIsCeiling(n - m, m);
      DivStep(n - m - 1, m);
    } else if n > 0 {
      DivOne(n - 1, m);
    }
  }

  /** A reply without spaces is hard-cut into full windows: every part but the last has
      exactly `maxLen` characters, and there are as many parts as windows. */
  lemma {:induction false} NoSpaceHardCuts(text: string, maxLen: int)
    requires maxLen >= 1
    requires forall j :: 0 <= j < |text| ==> text[j] != ' '
    ensures Halts(text, maxLen)
    ensures |SplitMessage(text, maxLen)| == HardCuts(|text|, maxLen)
    ensures forall k :: 0 <= k < |SplitMessage(text, maxLen)| - 1 ==> |SplitMessage(text, maxLen)[k]| == maxLen
    decreases |text|
  {
    if |text| > maxLen {
      var sp := SplitPoint(text, maxLen);
      assert sp == maxLen;
      var rest := text[maxLen..];
      NoSpaceHardCuts(rest, maxLen);
      var parts := SplitMessage(text, maxLen);
      assert parts == [text[..maxLen]] + SplitMessage(rest, maxLen);
      forall k | 1 <= k < |parts| - 1
        ensures |parts[k]| == maxLen
      {
        assert parts[k] == SplitMessage(rest, maxLen)[k - 1];
      }
    }
  }

  lemma DivStep(x: int, m: int)
    requires m >= 1 && x + m >= 0
    ensures (x + 2 * m) / m == (x + m) / m + 1
  {
    var q, r := (x + m) / m, (x + m) % m;
    assert x + 2 * m == (q + 1) * m + r;
    DivUnique(x + 2 * m, m, q + 1, r);
  }

  /** Quotients are unique: a value written as `q * m + r` with `0 <= r < m` has quotient `q`. */
  lemma DivUnique(a: int, m: int, q: int, r: int)
    requires m >= 1 && 0 <= r < m && a == q * m + r
    ensures a / m == q
  {
    var q', r' := a / m, a % m;
    assert a == q' * m + r';
    if q > q' {
      MulAtLeast(q - q', m);
    } else if q < q' {
      MulAtLeast(q' - q, m);
    }
  }

  lemma {:induction false} MulAtLeast(d: int, m: int)
    requires d >= 1 && m >= 1
    ensures d * m >= m
    decreases d
  {
    if d > 1 {
      MulAtLeast(d - 1, m);
      assert d * m == (d - 1) * m + m;
    }
  }

  lemma DivOne(x: nat, m: int)
    requires 1 <= m && x < m
    ensures (x + m) / m == 1
  {
  }

  /** Parts that are all `m` long but the last join to `(n - 1) * m` characters plus the last. */
  lemma {:induction false} LastPartLength(parts: seq<string>, m: int)
    requires |parts| >= 1
    requires forall k :: 0 <= k < |parts| - 1 ==> |parts[k]| == m
    ensures |Concat(parts)| == (|parts| - 1) * m + |parts[|parts| - 1]|
    decreases |parts|
  {
    if |parts| > 1 {
      LastPartLength(parts[1..], m);
      assert |Concat(parts)| == m + |Concat(parts[1..])|;
      assert (|parts| - 1) * m == m + (|parts| - 2) * m;
    }
  }

  /** The example the chunker is documented with: 1000 characters without a space, budget
      100, come out as 10 parts, all ten of them 100 characters long. */
  lemma NoSpaceExample(text: string)
    requires |text| == 1000 && forall j :: 0 <= j < |text| ==> text[j] != ' '
    ensures Halts(text, 100)
    ensures |SplitMessage(text, 100)| == 10
    ensures forall k :: 0 <= k < 10 ==> |SplitMessage(text, 100)[k]| == 100
  {
    NoSpaceHardCuts(text, 100);
    HardCutsIsCeiling(1000, 100);
    var parts := SplitMessage(text, 100);
    SplitMessageCovers(text, 100);
    LastPartLength(parts, 100);
    assert 1000 == 9 * 100 + |parts[9]|;
  }

  /** 5000 characters without a space under a budget of 4096 are sent as two messages. */
  lemma NoSpaceTwoChunks(text: string)
    requires |text| == 5000 && forall j :: 0 <= j < |text| ==> text[j] != ' '
    ensures Halts(text, 4096)
    ensures |SplitMessage(text, 4096)| == 2
    ensures |SplitMessage(text, 4096)[0]| == 4096
  {
    NoSpaceHardCuts(text, 4096);
    HardCutsIsCeiling(5000, 4096);
  }

  // ---------------------------------------------------------------------------
  // The while loop itself, pass by pass.
  // ---------------------------------------------------------------------------

  /** The variables of the loop: the parts appended so far and the remaining text. */
  datatype LoopState = LoopState(parts: seq<string>, text: string)

  /** The loop guard `len(text) > max_length` has failed. */
  predicate Exited(s: LoopState, maxLen: int) {
    |s.text| <= maxLen
  }

  /** One pass through the loop body, with Python's slice semantics for any split point. */
  function Iterate(s: LoopState, maxLen: int): (r: LoopState)
    ensures |r.parts| == |s.parts| + 1
  {
    var sp := SplitPoint(s.text, maxLen);
    LoopState(s.parts + [Take(s.text, sp)], Drop(s.text, sp))
  }

  /** At most `k` passes, stopping as soon as the guard fails. */
  function Run(s: LoopState, maxLen: int, k: nat): (r: LoopState)
    ensures |s.parts| <= |r.parts| <= |s.parts| + k
    decreases k
  {
    if k == 0 || Exited(s, maxLen) then s else Run(Iterate(s, maxLen), maxLen, k - 1)
  }

  /** The loop invariant: the parts appended so far, joined, followed by the remaining text,
      are always the original text; a pass moves characters without losing any. */
  lemma PassKeepsText(s: LoopState, maxLen: int)
    ensures Concat(Iterate(s, maxLen).parts) + Iterate(s, maxLen).text == Concat(s.parts) + s.text
  {
    var t := s.text;
    var sp := SplitPoint(t, maxLen);
    var head, rest := Take(t, sp), Drop(t, sp);
    assert Iterate(s, maxLen) == LoopState(s.parts + [head], rest);
    AppendOne(s.parts, head, rest);
    TakeDrop(t, sp);
  }

  /** The invariant holds after any number of passes. */
  lemma {:induction false} RunKeepsText(s: LoopState, maxLen: int, k: nat)
    ensures Concat(Run(s, maxLen, k).parts) + Run(s, maxLen, k).text == Concat(s.parts) + s.text
    decreases k
  {
    if k > 0 && !Exited(s, maxLen) {
      var next := Iterate(s, maxLen);
      var j: nat := k - 1;
      PassKeepsText(s, maxLen);
      RunKeepsText(next, maxLen, j);
      RunStep(s, next, maxLen, k, j);
    }
  }

  /** A pass whose split point is 0 appends "" and leaves the remaining text as it was. */
  lemma ZeroSplitMakesNoProgress(s: LoopState, maxLen: int)
    requires !Exited(s, maxLen) && SplitPoint(s.text, maxLen) == 0
    ensures Iterate(s, maxLen) == LoopState(s.parts + [""], s.text)
  {
  }

  /** A run of `k` passes that has not exited yet is one pass, `next`, followed by `j = k - 1`
      more. */
  lemma RunStep(s: LoopState, next: LoopState, maxLen: int, k: nat, j: nat)
    requires next == Iterate(s, maxLen) && j + 1 == k && !Exited(s, maxLen)
    ensures Run(s, maxLen, k) == Run(next, maxLen, j)
  {
  }

  /** A budget below 1 never lets a run that enters the loop finish. */
  lemma NoProgressWithoutBudget(text: string, maxLen: int)
    requires maxLen <= 0 && |text| > maxLen
    ensures !Halts(text, maxLen)
  {
  }

  /** A pass from a state that does not halt leads to a state that does not halt either:
      it either cuts a positive prefix off or makes no progress at all. */
  lemma NonHaltingPass(s: LoopState, next: LoopState, maxLen: int)
    requires next == Iterate(s, maxLen) && !Halts(s.text, maxLen)
    ensures !Exited(s, maxLen)
    ensures !Halts(next.text, maxLen)
  {
    if maxLen < 0 {
      NoProgressWithoutBudget(next.text, maxLen);
    } else if SplitPoint(s.text, maxLen) == 0 {
      assert next.text == s.text;
    }
  }

  /** Without `Halts`, the loop guard holds after every number of passes. */
  lemma {:induction false} DivergesUnlessHalts(s: LoopState, maxLen: int, k: nat)
    requires !Halts(s.text, maxLen)
    ensures !Exited(Run(s, maxLen, k), maxLen)
    decreases k
  {
    var next := Iterate(s, maxLen);
    NonHaltingPass(s, next, maxLen);
    if k > 0 {
      var j: nat := k - 1;
      DivergesUnlessHalts(next, maxLen, j);
      RunStep(s, next, maxLen, k, j);
    }
  }

  /** Whenever the loop exits, the text it started from satisfies `Halts`. */
  lemma ExitMeansHalts(s: LoopState, maxLen: int, k: nat)
    requires Exited(Run(s, maxLen, k), maxLen)
    ensures Halts(s.text, maxLen)
  {
    if !Halts(s.text, maxLen) {
      DivergesUnlessHalts(s, maxLen, k);
    }
  }

  /** A pass from a halting state leaves a shorter, halting remainder. */
  lemma HaltingPass(s: LoopState, next: LoopState, maxLen: int)
    requires next == Iterate(s, maxLen) && Halts(s.text, maxLen) && !Exited(s, maxLen)
    ensures Halts(next.text, maxLen)
    ensures |next.text| < |s.text|
  {
    var sp := SplitPoint(s.text, maxLen);
    assert next.text == s.text[sp..];
  }

  /** A pass from a halting state appends exactly the first part `split_message` returns. */
  lemma PassAppendsFirstPart(s: LoopState, next: LoopState, maxLen: int)
    requires next == Iterate(s, maxLen) && Halts(s.text, maxLen) && !Exited(s, maxLen)
    ensures Halts(next.text, maxLen)
    ensures next.parts + SplitMessage(next.text, maxLen) == s.parts + SplitMessage(s.text, maxLen)
  {
    HaltingPass(s, next, maxLen);
    var t := s.text;
    var sp := SplitPoint(t, maxLen);
    var head, tail := t[..sp], t[sp..];
    assert next == LoopState(s.parts + [head], tail);
    var rest := SplitMessage(tail, maxLen);
    assert SplitMessage(t, maxLen) == [head] + rest;
    SeqAssoc(s.parts, [head], rest);
  }

  /** Whenever the loop exits, it has computed `split_message`. */
  lemma {:induction false} ExitComputesSplit(s: LoopState, maxLen: int, k: nat)
    requires Exited(Run(s, maxLen, k), maxLen)
    ensures Halts(s.text, maxLen)
    ensures Run(s, maxLen, k).parts + [Run(s, maxLen, k).text] == s.parts + SplitMessage(s.text, maxLen)
    decreases k
  {
    ExitMeansHalts(s, maxLen, k);
    if k > 0 && !Exited(s, maxLen) {
      var next := Iterate(s, maxLen);
      var j: nat := k - 1;
      RunStep(s, next, maxLen, k, j);
      ExitComputesSplit(next, maxLen, j);
      PassAppendsFirstPart(s, next, maxLen);
    } else {
      assert Run(s, maxLen, k) == s;
    }
  }

  /** When `Halts` holds the loop exits within `|text|` passes. */
  lemma {:induction false} HaltsMeansExit(s: LoopState, maxLen: int, k: nat)
    requires Halts(s.text, maxLen) && k >= |s.text|
    ensures Exited(Run(s, maxLen, k), maxLen)
    decreases |s.text|
  {
    if !Exited(s, maxLen) {
      var next := Iterate(s, maxLen);
      var j: nat := k - 1;
      HaltingPass(s, next, maxLen);
      HaltsMeansExit(next, maxLen, j);
      RunStep(s, next, maxLen, k, j);
    }
  }

  /** The exact termination condition: the loop of `split_message` exits iff `Halts`,
      and whenever it exits it returns `SplitMessage`. */
  lemma LoopExitsIffHalts(text: string, maxLen: int)
    ensures Halts(text, maxLen) <==> exists k: nat :: Exited(Run(LoopState([], text), maxLen, k), maxLen)
    ensures forall k: nat :: Exited(Run(LoopState([], text), maxLen, k), maxLen) ==>
              Run(LoopState([], text), maxLen, k).parts + [Run(LoopState([], text), maxLen, k).text]
              == SplitMessage(text, maxLen)
  {
    var s := LoopState([], text);
    if Halts(text, maxLen) {
      var k: nat := |text|;
      HaltsMeansExit(s, maxLen, k);
      assert Exited(Run(LoopState([], text), maxLen, k), maxLen);
      assert exists k: nat :: Exited(Run(LoopState([], text), maxLen, k), maxLen);
    }
    if exists k: nat :: Exited(Run(s, maxLen, k), maxLen) {
      var k: nat :| Exited(Run(s, maxLen, k), maxLen);
      ExitMeansHalts(s, maxLen, k);
      assert Halts(text, maxLen);
    }
    forall k: nat | Exited(Run(s, maxLen, k), maxLen)
      ensures Halts(text, maxLen)
      ensures Run(s, maxLen, k).parts + [Run(s, maxLen, k).text] == SplitMessage(text, maxLen)
    {
      ExitComputesSplit(s, maxLen, k);
    }
  }

  /** Every cut before a space leaves that space at index 0 of the next window; when the
      rest of that window holds no other space and the remainder is still too long, the
      next split point is 0 and the loop never exits. */
  lemma SpaceCutStalls(text: string, maxLen: int)
    requires 1 <= maxLen && 0 < SplitPoint(text, maxLen) < maxLen
    requires |text| - SplitPoint(text, maxLen) > maxLen
    requires forall j :: SplitPoint(text, maxLen) < j < SplitPoint(text, maxLen) + maxLen ==> text[j] != ' '
    ensures SplitPoint(text[SplitPoint(text, maxLen)..], maxLen) == 0
    ensures !Halts(text, maxLen)
    ensures forall parts, k: nat :: !Exited(Run(LoopState(parts, text), maxLen, k), maxLen)
  {
    var sp := SplitPoint(text, maxLen);
    var rest := text[sp..];
    assert rest[0] == ' ';
    assert forall j :: 0 < j < maxLen ==> rest[j] == text[sp + j];
    assert SplitPoint(rest, maxLen) == 0;
    forall parts, k: nat
      ensures !Exited(Run(LoopState(parts, text), maxLen, k), maxLen)
    {
      DivergesUnlessHalts(LoopState(parts, text), maxLen, k);
    }
  }

  /** A space right after a space-cut can stall the loop: with a budget of 6,
      "aaaaa bbbbbbbbbb" is cut before its space, and the remainder " bbbbbbbbbb" has its
      only window space at index 0, so the loop appends "" forever. */
  lemma StallExample()
    ensures !Halts("aaaaa bbbbbbbbbb", 6)
    ensures forall k: nat :: !Exited(Run(LoopState([], "aaaaa bbbbbbbbbb"), 6, k), 6)
  {
    var t := "aaaaa bbbbbbbbbb";
    assert SplitPoint(t, 6) == 5 by {
      assert t[5] == ' ';
    }
    var rest := " bbbbbbbbbb";
    assert t[5..] == rest;
    assert SplitPoint(rest, 6) == 0 by {
      assert rest[0] == ' ';
      assert forall j :: 0 < j < 6 ==> rest[j] != ' ';
    }
    LoopExitsIffHalts(t, 6);
  }

  // ---------------------------------------------------------------------------
  // The corrected chunker: a space at window index 0 counts as no space.
  // ---------------------------------------------------------------------------

  /** The split point with a space at index 0 treated like no space: hard-cut at `maxLen`. */
  function SplitPointCorrected(text: string, maxLen: int): (sp: int)
    requires 1 <= maxLen < |text|
    ensures 0 < sp <= maxLen
    ensures sp < maxLen ==> text[sp] == ' ' && forall j :: sp < j < maxLen ==> text[j] != ' '
  {
    var p := RFind(text, ' ', maxLen);
    if p <= 0 then maxLen else p
  }

  /** `split_message` with the zero split point guarded: total for every positive budget. */
  function SplitMessageCorrected(text: string, maxLen: int): (parts: seq<string>)
    requires maxLen >= 1
    ensures |parts| >= 1
    ensures |text| <= maxLen ==> parts == [text]
    decreases |text|
  {
    if |text| <= maxLen then [text]
    else
      var sp := SplitPointCorrected(text, maxLen);
      [text[..sp]] + SplitMessageCorrected(text[sp..], maxLen)
  }

  /** The corrected chunker loses nothing and keeps every part within the budget, on every
      input. */
  lemma {:induction false} CorrectedCovers(text: string, maxLen: int)
    requires maxLen >= 1
    ensures Covers(SplitMessageCorrected(text, maxLen), text, maxLen)
    decreases |text|
  {
    if |text| > maxLen {
      var sp := SplitPointCorrected(text, maxLen);
      CorrectedCovers(text[sp..], maxLen);
      ConsCovers(text, sp, SplitMessageCorrected(text[sp..], maxLen), maxLen);
    }
  }

  /** Wherever the original loop returns, the correction changes nothing. */
  lemma {:induction false} CorrectedAgreesWhenHalting(text: string, maxLen: int)
    requires maxLen >= 1 && Halts(text, maxLen)
    ensures SplitMessageCorrected(text, maxLen) == SplitMessage(text, maxLen)
    decreases |text|
  {
    if |text| > maxLen {
      var sp := SplitPoint(text, maxLen);
      assert SplitPointCorrected(text, maxLen) == sp;
      CorrectedAgreesWhenHalting(text[sp..], maxLen);
    }
  }

  /** On the input that stalls the original, the corrected chunker hard-cuts the window that
      starts with a space. */
  lemma CorrectedStallExample()
    ensures SplitMessageCorrected("aaaaa bbbbbbbbbb", 6) == ["aaaaa", " bbbbb", "bbbbb"]
  {
    var t, r1, r2 := "aaaaa bbbbbbbbbb", " bbbbbbbbbb", "bbbbb";
    assert SplitPointCorrected(r1, 6) == 6 by {
      assert forall j :: 0 < j < 6 ==> r1[j] != ' ';
    }
    assert r1[6..] == r2 && r1[..6] == " bbbbb";
    assert SplitMessageCorrected(r1, 6) == [" bbbbb", r2];
    assert SplitPointCorrected(t, 6) == 5 by {
      assert t[5] == ' ';
    }
    assert t[5..] == r1 && t[..5] == "aaaaa";
  }
}
