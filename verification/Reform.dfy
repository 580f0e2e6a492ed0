/** reform's two halves: expanding the tabs of an input line by one list of stops, and putting tabs back into
    the output by another. Characters are their codes; a line has no newline in it. Both loops go through the
    stops with a pointer that never goes back; Expand and Squeeze do without it, ExpandFrom and SqueezeFrom have
    it as an argument. */
module Reform {
  const TAB: int := 9
  const BLANK: int := 32
  const BS: int := 8
  const ESC: int := 27

  ghost predicate Stops(tabs: seq<int>) {
    (forall i | 0 <= i < |tabs| :: tabs[i] > 0) && forall i, j | 0 <= i < j < |tabs| :: tabs[i] < tabs[j]
  }

  function Width(c: int): nat {
    if c >= BLANK then 1 else 0
  }

  /** The line has nothing that moves the column back. */
  ghost predicate Forward(text: seq<int>) {
    forall i | 0 <= i < |text| :: text[i] != BS && text[i] != ESC
  }

  function Blanks(n: nat): (s: seq<int>)
    ensures |s| == n
  {
    seq(n, _ => BLANK)
  }

  lemma BlanksAdd(m: nat, n: nat)
    ensures Blanks(m) + Blanks(n) == Blanks(m + n)
  {
  }

  // ---- Stops

  /** The first stop at or after index i that lies beyond the column, or 0. */
  function Beyond(tabs: seq<int>, i: nat, col: int): (t: int)
    requires i <= |tabs|
    ensures t != 0 ==> t > col && t in tabs
    decreases |tabs| - i
  {
    if i == |tabs| then 0 else if tabs[i] > col && tabs[i] != 0 then tabs[i] else Beyond(tabs, i + 1, col)
  }

  function NextStop(tabs: seq<int>, col: int): (t: int)
    ensures t != 0 ==> t > col && t in tabs
  {
    Beyond(tabs, 0, col)
  }

  /** It is the nearest one. */
  lemma {:induction false} BeyondIsNearest(tabs: seq<int>, i: nat, col: int)
    requires Stops(tabs) && i <= |tabs|
    ensures forall j | i <= j < |tabs| && tabs[j] > col :: 0 < Beyond(tabs, i, col) <= tabs[j]
    decreases |tabs| - i
  {
    if i < |tabs| {
      BeyondIsNearest(tabs, i + 1, col);
    }
  }

  lemma NextStopIsNearest(tabs: seq<int>, col: int)
    requires Stops(tabs)
    ensures forall t | t in tabs && t > col :: 0 < NextStop(tabs, col) <= t
  {
    BeyondIsNearest(tabs, 0, col);
  }

  /** Where the tab pointer stands does not matter, as long as the stops before it have been passed. */
  lemma {:induction false} FromPointer(tabs: seq<int>, i: nat, col: int)
    requires Stops(tabs) && i <= |tabs| && forall j | 0 <= j < i :: tabs[j] <= col
    ensures NextStop(tabs, col) == Beyond(tabs, i, col)
    decreases i
  {
    if i > 0 {
      FromPointer(tabs, i - 1, col);
    }
  }

  // ---- Expanding

  /** The line with its tabs replaced by blanks, from a column on. A tab past the last stop is one blank. */
  function Expand(text: seq<int>, tabs: seq<int>, col: int): seq<int> {
    if text == [] then []
    else if text[0] == TAB then
      var t := NextStop(tabs, col);
      var to := if t == 0 then col + 1 else t;
      Blanks(to - col) + Expand(text[1..], tabs, to)
    else
      [text[0]] + Expand(text[1..], tabs, col + Width(text[0]))
  }

  /** The column after character c. */
  function Move(c: int): int {
    if c >= BLANK then 1 else if c == BS || c == ESC then -1 else 0
  }

  /** The pointer into the stops, moved from i past those that are not beyond the column. */
  function Past(tabs: seq<int>, i: nat, col: int): (k: nat)
    requires i <= |tabs|
    ensures i <= k <= |tabs| && (k < |tabs| ==> tabs[k] > col) && forall j | i <= j < k :: tabs[j] <= col
    decreases |tabs| - i
  {
    if i < |tabs| && tabs[i] <= col then Past(tabs, i + 1, col) else i
  }

  /** Any line with its tabs replaced by blanks, with the pointer at i, which does not go back where the column
      does. */
  function ExpandFrom(text: seq<int>, tabs: seq<int>, i: nat, col: int): seq<int>
    requires i <= |tabs|
  {
    if text == [] then []
    else if text[0] == TAB then
      var k := Past(tabs, i, col);
      var to := if k < |tabs| then tabs[k] else col + 1;
      Blanks(to - col) + ExpandFrom(text[1..], tabs, k, to)
    else
      [text[0]] + ExpandFrom(text[1..], tabs, i, col + Move(text[0]))
  }

  lemma ExpandFromNext(c: int, rest: seq<int>, tabs: seq<int>, i: nat, col: int)
    requires i <= |tabs|
    ensures c != TAB ==> ExpandFrom([c] + rest, tabs, i, col) == [c] + ExpandFrom(rest, tabs, i, col + Move(c))
    ensures c == TAB ==>
              var k := Past(tabs, i, col);
              var to := if k < |tabs| then tabs[k] else col + 1;
              ExpandFrom([c] + rest, tabs, i, col) == Blanks(to - col) + ExpandFrom(rest, tabs, k, to)
  {
    hide Past, Move, Blanks;
    assert ([c] + rest)[1..] == rest;
  }

  lemma PastIsNext(tabs: seq<int>, i: nat, col: int)
    requires Stops(tabs) && i <= |tabs| && forall j | 0 <= j < i :: tabs[j] <= col
    ensures var k := Past(tabs, i, col);
            && NextStop(tabs, col) == (if k < |tabs| then tabs[k] else 0)
            && forall j | 0 <= j < k :: tabs[j] <= col
  {
    FromPointer(tabs, Past(tabs, i, col), col);
  }

  /** Where the column never goes back, the pointer makes no difference. */
  lemma {:induction false} ExpandForward(text: seq<int>, tabs: seq<int>, i: nat, col: int)
    requires Forward(text) && Stops(tabs) && i <= |tabs| && forall j | 0 <= j < i :: tabs[j] <= col
    ensures ExpandFrom(text, tabs, i, col) == Expand(text, tabs, col)
  {
    hide Expand, ExpandFrom, Past, NextStop, Beyond, Blanks, Printed, Stops;
    if text == [] {
      NothingExpandsFrom(tabs, i, col);
      NothingToExpand(tabs, col);
    } else {
      var c, rest := text[0], text[1..];
      assert text == [c] + rest;
      ExpandFromNext(c, rest, tabs, i, col);
      var m, to := FirstExpanded(text, tabs, col);
      PastIsNext(tabs, i, col);
      PositiveStops(tabs);
      ExpandForward(rest, tabs, if c == TAB then Past(tabs, i, col) else i, to);
    }
  }

  lemma PositiveStops(tabs: seq<int>)
    requires Stops(tabs)
    ensures forall i | 0 <= i < |tabs| :: tabs[i] > 0
    ensures forall i, j | 0 <= i < j < |tabs| :: tabs[i] < tabs[j]
  {
  }

  /** Reads a line, expanding its tabs. */
  method GetLine(text: seq<int>, tabs: seq<int>) returns (line: seq<int>)
    requires Stops(tabs)
    ensures line == ExpandFrom(text, tabs, 0, 1)
    ensures Forward(text) ==> line == Expand(text, tabs, 1)
  {
    hide Expand, ExpandFrom, NextStop, Beyond, Blanks, Past, Move, Stops;
    var itab, nextcol, k := 0, 1, 0;
    line := [];
    assert text[0..] == text;
    while k < |text|
      invariant 0 <= k <= |text| && 0 <= itab <= |tabs|
      invariant line + ExpandFrom(text[k..], tabs, itab, nextcol) == ExpandFrom(text, tabs, 0, 1)
    {
      var c := text[k];
      assert text[k..] == [c] + text[k + 1..];
      ExpandFromNext(c, text[k + 1..], tabs, itab, nextcol);
      Moves(c);
      if c == TAB {
        var n;
        n, itab := ToStop(tabs, itab, nextcol);
        nextcol := nextcol + n;
        Regroup(line, Blanks(n), ExpandFrom(text[k + 1..], tabs, itab, nextcol));
        line := line + Blanks(n);
      } else {
        Regroup(line, [c], ExpandFrom(text[k + 1..], tabs, itab, nextcol + Move(c)));
        line := line + [c];
        if c >= BLANK {
          nextcol := nextcol + 1;
        } else if c == BS || c == ESC {
          nextcol := nextcol - 1;
        }
      }
      k := k + 1;
    }
    NothingExpandsFrom(tabs, itab, nextcol);
    assert text[k..] == [] && line + [] == line;
    if Forward(text) {
      ExpandForward(text, tabs, 0, 1);
    }
  }

  lemma Moves(c: int)
    ensures Move(c) == if c >= BLANK then 1 else if c == BS || c == ESC then -1 else 0
  {
  }

  lemma NothingExpandsFrom(tabs: seq<int>, i: nat, col: int)
    requires i <= |tabs|
    ensures ExpandFrom([], tabs, i, col) == []
  {
  }

  /** How far a tab goes: to the first stop from the pointer on that lies beyond the column. */
  method ToStop(tabs: seq<int>, i: nat, nextcol: int) returns (n: nat, itab: nat)
    requires Stops(tabs) && i <= |tabs|
    ensures itab == Past(tabs, i, nextcol)
    ensures nextcol + n == if itab < |tabs| then tabs[itab] else nextcol + 1
  {
    itab := SkipStops(tabs, i, nextcol);
    PositiveStops(tabs);
    var ctab := if itab < |tabs| then tabs[itab] else 0;
    n := if ctab != 0 then ctab - nextcol else 1;
  }

  method SkipStops(tabs: seq<int>, i: nat, nextcol: int) returns (itab: nat)
    requires i <= |tabs|
    ensures itab == Past(tabs, i, nextcol)
  {
    itab := i;
    while itab < |tabs| && nextcol >= tabs[itab]
      invariant i <= itab <= |tabs| && Past(tabs, i, nextcol) == Past(tabs, itab, nextcol)
    {
      itab := itab + 1;
    }
  }

  // ---- Contracting

  /** Blanks from col to end as tabs to each stop on the way, and blanks for what is left. */
  function Gap(tabs: seq<int>, col: int, end: int): seq<int>
    requires col <= end
    decreases end - col
  {
    var t := NextStop(tabs, col);
    if t == 0 || t > end then Blanks(end - col) else [TAB] + Gap(tabs, t, end)
  }

  /** The number of blanks the line starts with. */
  function Lead(line: seq<int>): (b: nat)
    ensures b <= |line| && line[..b] == Blanks(b) && (b < |line| ==> line[b] != BLANK)
  {
    if line == [] || line[0] != BLANK then 0
    else
      assert line[1..][..Lead(line[1..])] == Blanks(Lead(line[1..]));
      assert line[..1 + Lead(line[1..])] == [line[0]] + line[1..][..Lead(line[1..])];
      1 + Lead(line[1..])
  }

  /** A run of b blanks: compressed if it has at least n or is at the left margin. */
  function Run(tabs: seq<int>, n: int, col: int, b: nat): seq<int> {
    if b >= n || col == 1 then Gap(tabs, col, col + b) else Blanks(b)
  }

  /** The line with its runs of blanks compressed. */
  function Squeeze(line: seq<int>, tabs: seq<int>, n: int, col: int): seq<int>
    decreases |line|
  {
    var b := Lead(line);
    if b == |line| then Run(tabs, n, col, b)
    else Run(tabs, n, col, b) + ([line[b]] + Squeeze(line[b + 1..], tabs, n, col + b + Width(line[b])))
  }

  lemma {:induction false} ExpandBlanks(n: nat, rest: seq<int>, tabs: seq<int>, col: int)
    ensures Expand(Blanks(n) + rest, tabs, col) == Blanks(n) + Expand(rest, tabs, col + n)
  {
    hide Expand, Blanks;
    if n > 0 {
      OneBlank(n, rest);
      OneBlank(n, Expand(rest, tabs, col + n));
      ExpandChar(BLANK, Blanks(n - 1) + rest, tabs, col);
      ExpandBlanks(n - 1, rest, tabs, col + 1);
    } else {
      NoBlanks();
      NothingBefore(rest);
      NothingBefore(Expand(rest, tabs, col));
    }
  }

  lemma OneBlank(n: nat, rest: seq<int>)
    requires n > 0
    ensures Blanks(n) + rest == [BLANK] + (Blanks(n - 1) + rest)
  {
  }

  lemma Regroup(a: seq<int>, b: seq<int>, c: seq<int>)
    ensures a + b + c == a + (b + c)
  {
  }

  lemma GapIs(tabs: seq<int>, col: int, end: int)
    requires col <= end
    ensures var t := NextStop(tabs, col);
            Gap(tabs, col, end) == if t == 0 || t > end then Blanks(end - col) else [TAB] + Gap(tabs, t, end)
  {
  }

  lemma ExpandTab(text: seq<int>, tabs: seq<int>, col: int)
    requires NextStop(tabs, col) != 0
    ensures Expand([TAB] + text, tabs, col) == Blanks(NextStop(tabs, col) - col) + Expand(text, tabs, NextStop(tabs, col))
  {
    hide NextStop, Blanks;
    assert ([TAB] + text)[1..] == text;
  }

  lemma {:induction false} ExpandGap(tabs: seq<int>, col: int, end: int, rest: seq<int>)
    requires col <= end
    ensures Expand(Gap(tabs, col, end) + rest, tabs, col) == Blanks(end - col) + Expand(rest, tabs, end)
    decreases end - col
  {
    hide *;
    var t := NextStop(tabs, col);
    GapIs(tabs, col, end);
    if t == 0 || t > end {
      ExpandBlanks(end - col, rest, tabs, col);
    } else {
      ExpandTab(Gap(tabs, t, end) + rest, tabs, col);
      Regroup([TAB], Gap(tabs, t, end), rest);
      ExpandGap(tabs, t, end, rest);
      BlanksAdd(t - col, end - t);
      Regroup(Blanks(t - col), Blanks(end - t), Expand(rest, tabs, end));
    }
  }

  lemma ExpandRun(tabs: seq<int>, n: int, col: int, b: nat, rest: seq<int>)
    ensures Expand(Run(tabs, n, col, b) + rest, tabs, col) == Blanks(b) + Expand(rest, tabs, col + b)
  {
    if b >= n || col == 1 {
      ExpandGap(tabs, col, col + b, rest);
    } else {
      ExpandBlanks(b, rest, tabs, col);
    }
  }

  lemma ExpandChar(c: int, rest: seq<int>, tabs: seq<int>, col: int)
    requires c != TAB
    ensures Expand([c] + rest, tabs, col) == [c] + Expand(rest, tabs, col + Width(c))
  {
    assert ([c] + rest)[1..] == rest;
  }

  lemma SqueezeIs(line: seq<int>, tabs: seq<int>, n: int, col: int)
    ensures Lead(line) == |line| ==> Squeeze(line, tabs, n, col) == Run(tabs, n, col, Lead(line))
    ensures Lead(line) < |line| ==>
              Squeeze(line, tabs, n, col) == Run(tabs, n, col, Lead(line)) + ([line[Lead(line)]]
                + Squeeze(line[Lead(line) + 1..], tabs, n, col + Lead(line) + Width(line[Lead(line)])))
  {
    hide Run, Gap, Expand, Blanks, Lead, Width, NextStop;
  }

  lemma NothingToExpand(tabs: seq<int>, col: int)
    ensures Expand([], tabs, col) == []
  {
  }

  /** Expanding a compressed line with the same stops gives the line back, whatever the threshold. */
  lemma {:induction false} RoundTrip(line: seq<int>, tabs: seq<int>, n: int, col: int)
    requires TAB !in line
    ensures Expand(Squeeze(line, tabs, n, col), tabs, col) == line
    decreases |line|
  {
    hide Expand, Squeeze, Run, Gap, Width, Blanks;
    var b := Lead(line);
    SqueezeIs(line, tabs, n, col);
    if b == |line| {
      ExpandRun(tabs, n, col, b, []);
      NothingToExpand(tabs, col + b);
      assert Run(tabs, n, col, b) + [] == Run(tabs, n, col, b);
      assert Blanks(b) + [] == line;
    } else {
      var rest, to := line[b + 1..], col + b + Width(line[b]);
      ExpandRun(tabs, n, col, b, [line[b]] + Squeeze(rest, tabs, n, to));
      ExpandChar(line[b], Squeeze(rest, tabs, n, to), tabs, col + b);
      RoundTrip(rest, tabs, n, to);
      assert line == line[..b] + ([line[b]] + rest);
    }
  }

  lemma {:induction false} GapForward(tabs: seq<int>, col: int, end: int)
    requires col <= end
    ensures Forward(Gap(tabs, col, end))
    decreases end - col
  {
    hide NextStop;
    var t := NextStop(tabs, col);
    if t != 0 && t <= end {
      GapForward(tabs, t, end);
    }
  }

  lemma RunForward(tabs: seq<int>, n: int, col: int, b: nat)
    ensures Forward(Run(tabs, n, col, b))
  {
    GapForward(tabs, col, col + b);
  }

  /** A compressed line has nothing that moves the column back, if the line has not. */
  lemma {:induction false} SqueezeForward(line: seq<int>, tabs: seq<int>, n: int, col: int)
    requires Forward(line)
    ensures Forward(Squeeze(line, tabs, n, col))
    decreases |line|
  {
    hide Squeeze, Run, Gap, Width, Blanks;
    var b := Lead(line);
    SqueezeIs(line, tabs, n, col);
    RunForward(tabs, n, col, b);
    if b < |line| {
      SqueezeForward(line[b + 1..], tabs, n, col + b + Width(line[b]));
    }
  }

  lemma {:induction false} GapNoLonger(tabs: seq<int>, col: int, end: int)
    requires col <= end
    ensures |Gap(tabs, col, end)| <= end - col
    decreases end - col
  {
    var t := NextStop(tabs, col);
    if t != 0 && t <= end {
      GapNoLonger(tabs, t, end);
    }
  }

  /** Compressing never lengthens a line. */
  lemma {:induction false} NoLonger(line: seq<int>, tabs: seq<int>, n: int, col: int)
    ensures |Squeeze(line, tabs, n, col)| <= |line|
    decreases |line|
  {
    hide Squeeze, Run, Gap, Width, Blanks;
    var b := Lead(line);
    SqueezeIs(line, tabs, n, col);
    RunNoLonger(tabs, n, col, b);
    if b < |line| {
      NoLonger(line[b + 1..], tabs, n, col + b + Width(line[b]));
    }
  }

  lemma RunNoLonger(tabs: seq<int>, n: int, col: int, b: nat)
    ensures |Run(tabs, n, col, b)| <= b
  {
    GapNoLonger(tabs, col, col + b);
  }

  // ---- What expanding and compressing mean, part by part

  /** How far a text moves the column. */
  function Printed(text: seq<int>): nat {
    if text == [] then 0 else Width(text[0]) + Printed(text[1..])
  }

  lemma {:induction false} PrintedAdd(a: seq<int>, b: seq<int>)
    ensures Printed(a + b) == Printed(a) + Printed(b)
  {
    if a == [] {
      assert a + b == b;
    } else {
      PrintedAdd(a[1..], b);
      assert (a + b)[1..] == a[1..] + b;
    }
  }

  lemma {:induction false} BlanksPrinted(n: nat)
    ensures Printed(Blanks(n)) == n
  {
    if n > 0 {
      BlanksPrinted(n - 1);
      assert Blanks(n)[1..] == Blanks(n - 1);
    }
  }

  /** The text is expanded part by part, each from the column where the one before it ends. */
  lemma {:induction false} ExpandAppend(a: seq<int>, b: seq<int>, tabs: seq<int>, col: int)
    ensures Expand(a + b, tabs, col) == Expand(a, tabs, col) + Expand(b, tabs, col + Printed(Expand(a, tabs, col)))
  {
    hide *;
    if a == [] {
      SqueezeNothing(tabs, 1, col);
      NothingToExpand(tabs, col);
      assert a + b == b && [] + Expand(b, tabs, col) == Expand(b, tabs, col);
    } else {
      var m, to := FirstExpanded(a, tabs, col);
      var same, too := FirstExpanded(a + b, tabs, col);
      assert (a + b)[1..] == a[1..] + b;
      ExpandAppend(a[1..], b, tabs, to);
      var rest := Expand(a[1..], tabs, to);
      PrintedAdd(m, rest);
      Regroup(m, rest, Expand(b, tabs, to + Printed(rest)));
    }
  }

  /** What the first character expands to, and the column after it. */
  lemma FirstExpanded(text: seq<int>, tabs: seq<int>, col: int) returns (m: seq<int>, to: int)
    requires text != []
    ensures to == if text[0] != TAB then col + Width(text[0]) else if NextStop(tabs, col) == 0 then col + 1 else NextStop(tabs, col)
    ensures m == if text[0] != TAB then [text[0]] else Blanks(to - col)
    ensures Expand(text, tabs, col) == m + Expand(text[1..], tabs, to) && to == col + Printed(m)
  {
    hide NextStop, Blanks, Printed, Width;
    var t := NextStop(tabs, col);
    to := if text[0] != TAB then col + Width(text[0]) else if t == 0 then col + 1 else t;
    m := if text[0] != TAB then [text[0]] else Blanks(to - col);
    if text[0] == TAB {
      BlanksPrinted(to - col);
    } else {
      OnePrinted(text[0]);
    }
  }

  lemma OnePrinted(c: int)
    ensures Printed([c]) == Width(c)
  {
    assert [c][1..] == [];
  }

  /** One more character: a tab becomes at least one blank, and blanks to the nearest stop if there is one. */
  lemma ExpandOneMore(text: seq<int>, c: int, tabs: seq<int>, col: int) returns (n: nat)
    requires Stops(tabs)
    ensures var line := Expand(text, tabs, col);
            var at := col + Printed(line);
            && (c != TAB ==> Expand(text + [c], tabs, col) == line + [c])
            && (c == TAB ==> Expand(text + [c], tabs, col) == line + Blanks(n) && n >= 1)
            && (c == TAB && (exists t | t in tabs :: t > at) ==> at + n in tabs)
            && (c == TAB && !(exists t | t in tabs :: t > at) ==> n == 1)
            && (c == TAB ==> forall t | t in tabs :: t <= at || t >= at + n)
  {
    hide Expand, Blanks, Printed, Stops, NextStop;
    var line := Expand(text, tabs, col);
    var at := col + Printed(line);
    ExpandAppend(text, [c], tabs, col);
    var m, to := FirstExpanded([c], tabs, at);
    NothingToExpand(tabs, to);
    assert [c][1..] == [] && m + [] == m;
    NextStopIsNearest(tabs, at);
    n := if c == TAB then to - at else 0;
  }

  lemma {:induction false} GapAfterBlank(tabs: seq<int>, col: int, end: int)
    requires Stops(tabs) && col < end
    ensures |Gap(tabs, col, end)| <= 1 + |Gap(tabs, col + 1, end)|
  {
    hide NextStop, Stops;
    NextStopIsNearest(tabs, col);
    NextStopIsNearest(tabs, col + 1);
    var t := NextStop(tabs, col);
    assert t == col + 1 || NextStop(tabs, col + 1) == t;
  }

  lemma Longer(m: seq<int>, rest: seq<int>, n: nat)
    requires m + rest == Blanks(n)
    ensures |m| <= n && rest == Blanks(n - |m|) && m == Blanks(|m|)
  {
    assert rest == (m + rest)[|m|..];
    assert m == (m + rest)[..|m|];
  }

  /** A compressed run is the shortest text that expands to its blanks. */
  lemma {:induction false} GapShortest(tabs: seq<int>, col: int, end: int, text: seq<int>)
    requires Stops(tabs) && col <= end && Expand(text, tabs, col) == Blanks(end - col)
    ensures |Gap(tabs, col, end)| <= |text|
    decreases |text|
  {
    hide Expand, NextStop, Stops, Gap, Blanks, Printed;
    if text == [] {
      NothingToExpand(tabs, col);
      EmptyGap(tabs, col);
    } else {
      var m, to := FirstExpanded(text, tabs, col);
      Longer(m, Expand(text[1..], tabs, to), end - col);
      FirstIsBlank(text, tabs, col, m, to);
      GapShortest(tabs, to, end, text[1..]);
      if NextStop(tabs, col) == 0 || text[0] != TAB {
        GapAfterBlank(tabs, col, end);
      } else {
        GapIs(tabs, col, end);
      }
    }
  }

  /** What expands to blanks has only blanks and tabs. */
  lemma FirstIsBlank(text: seq<int>, tabs: seq<int>, col: int, m: seq<int>, to: int)
    requires text != [] && m == Blanks(|m|) && to == col + Printed(m)
    requires m == if text[0] != TAB then [text[0]] else Blanks(to - col)
    ensures to == col + |m| && (text[0] != TAB ==> to == col + 1)
  {
    BlanksPrinted(|m|);
  }

  /** The text has no blank at its end. */
  predicate EndsRun(text: seq<int>) {
    text == [] || text[|text| - 1] != BLANK
  }

  lemma LeadWithin(x: seq<int>, rest: seq<int>)
    requires x != [] && EndsRun(x)
    ensures Lead(x) < |x| && Lead(x + rest) == Lead(x)
  {
    LeadIs(x + rest, Lead(x));
  }

  lemma {:induction false} LeadIs(line: seq<int>, b: nat)
    requires b <= |line| && (forall i | 0 <= i < b :: line[i] == BLANK) && (b < |line| ==> line[b] != BLANK)
    ensures Lead(line) == b
  {
    if b > 0 {
      LeadIs(line[1..], b - 1);
    }
  }

  /** A run of blanks with nothing before it. */
  lemma SqueezeStart(b: nat, rest: seq<int>, tabs: seq<int>, n: int, col: int)
    requires rest == [] || rest[0] != BLANK
    ensures Squeeze(Blanks(b) + rest, tabs, n, col) == Run(tabs, n, col, b) + Squeeze(rest, tabs, n, col + b)
  {
    var line := Blanks(b) + rest;
    hide Squeeze, Run, Gap, Lead, Width;
    LeadIs(line, b);
    LeadIs(rest, 0);
    SqueezeIs(line, tabs, n, col);
    SqueezeIs(rest, tabs, n, col + b);
    EmptyRun(tabs, n, col + b);
    if rest != [] {
      var more := Squeeze(rest[1..], tabs, n, col + b + Width(rest[0]));
      assert line[b + 1..] == rest[1..];
      assert [] + ([rest[0]] + more) == [rest[0]] + more;
    } else {
      assert Run(tabs, n, col, b) + [] == Run(tabs, n, col, b);
    }
  }

  /** The first part of a line up to its first character that is no blank. */
  lemma SqueezeFirst(x: seq<int>, tail: seq<int>, tabs: seq<int>, n: int, col: int)
    requires x != [] && EndsRun(x)
    ensures var l := Lead(x);
            && l < |x| && EndsRun(x[l + 1..])
            && Squeeze(x + tail, tabs, n, col)
               == After(Run(tabs, n, col, l), x[l], Squeeze(x[l + 1..] + tail, tabs, n, col + l + Width(x[l])))
            && Squeeze(x, tabs, n, col)
               == After(Run(tabs, n, col, l), x[l], Squeeze(x[l + 1..], tabs, n, col + l + Width(x[l])))
  {
    hide Squeeze, Run, Lead, Width;
    LeadWithin(x, tail);
    var l := Lead(x);
    SqueezeIs(x + tail, tabs, n, col);
    SqueezeIs(x, tabs, n, col);
    assert (x + tail)[l + 1..] == x[l + 1..] + tail;
  }

  lemma {:induction false} SqueezeParts(x: seq<int>, b: nat, rest: seq<int>, tabs: seq<int>, n: int, col: int)
    requires EndsRun(x) && (rest == [] || rest[0] != BLANK)
    ensures var at := col + Printed(x);
            Squeeze(x + (Blanks(b) + rest), tabs, n, col)
            == Three(Squeeze(x, tabs, n, col), Run(tabs, n, at, b), Squeeze(rest, tabs, n, at + b))
    decreases |x|
  {
    hide *;
    var at := col + Printed(x);
    if x == [] {
      SqueezeStart(b, rest, tabs, n, col);
      SqueezeNothing(tabs, n, col);
      NothingFirst(Blanks(b) + rest, Run(tabs, n, at, b), Squeeze(rest, tabs, n, at + b));
    } else {
      var l := Lead(x);
      SqueezeFirst(x, Blanks(b) + rest, tabs, n, col);
      var to := col + l + Width(x[l]);
      SqueezeParts(x[l + 1..], b, rest, tabs, n, to);
      LeadPrinted(x);
      AfterThree(Run(tabs, n, col, l), x[l], Squeeze(x[l + 1..], tabs, n, to), Run(tabs, n, at, b),
        Squeeze(rest, tabs, n, at + b));
    }
  }

  lemma NothingFirst(s: seq<int>, a: seq<int>, b: seq<int>)
    ensures [] + s == s && Three([], a, b) == a + b
  {
  }

  /** A run of b blanks in the line, as long as it goes, is compressed if it has at least n blanks or starts in the
      first column, and stays as it is otherwise; what stands before and after it is compressed on its own. */
  lemma SqueezeRun(x: seq<int>, b: nat, rest: seq<int>, tabs: seq<int>, n: int, col: int)
    requires EndsRun(x) && (rest == [] || rest[0] != BLANK)
    ensures var at := col + Printed(x);
            Squeeze(x + (Blanks(b) + rest), tabs, n, col)
            == Squeeze(x, tabs, n, col) + (if b >= n || at == 1 then Gap(tabs, at, at + b) else Blanks(b))
               + Squeeze(rest, tabs, n, at + b)
  {
    hide EndsRun, Squeeze, Gap, Blanks, Printed;
    SqueezeParts(x, b, rest, tabs, n, col);
  }

  lemma NothingBefore(s: seq<int>)
    ensures [] + s == s
  {
  }

  lemma EmptyRun(tabs: seq<int>, n: int, col: int)
    ensures Run(tabs, n, col, 0) == []
  {
    EmptyGap(tabs, col);
  }

  lemma SqueezeNothing(tabs: seq<int>, n: int, col: int)
    ensures Squeeze([], tabs, n, col) == [] && Printed([]) == 0
  {
    EmptyGap(tabs, col);
  }

  lemma LeadPrinted(x: seq<int>)
    requires Lead(x) < |x|
    ensures Printed(x) == Lead(x) + Width(x[Lead(x)]) + Printed(x[Lead(x) + 1..])
  {
    hide *;
    var l := Lead(x);
    BlanksPrinted(l);
    PrintedAdd(x[..l], x[l..]);
    PrintedNext(x[l..]);
    CutAt(x, l);
  }

  lemma PrintedNext(text: seq<int>)
    requires text != []
    ensures Printed(text) == Width(text[0]) + Printed(text[1..])
  {
  }

  lemma CutAt(x: seq<int>, l: nat)
    requires l < |x|
    ensures x == x[..l] + x[l..] && x[l..][0] == x[l] && x[l..][1..] == x[l + 1..]
  {
  }

  /** A line without blanks stays as it is. */
  lemma {:induction false} SqueezeKeeps(line: seq<int>, tabs: seq<int>, n: int, col: int)
    requires BLANK !in line
    ensures Squeeze(line, tabs, n, col) == line
    decreases |line|
  {
    hide Squeeze, Run, Gap, Lead, Width, Blanks;
    LeadIs(line, 0);
    SqueezeIs(line, tabs, n, col);
    EmptyRun(tabs, n, col);
    if line != [] {
      SqueezeKeeps(line[1..], tabs, n, col + Width(line[0]));
      assert [] + ([line[0]] + line[1..]) == line;
    }
  }

  // ---- Lines on which the column goes back

  /** Blanks from col to end, with the pointer at i: a tab for every stop on the way. */
  function GapFrom(tabs: seq<int>, i: nat, col: int, end: int): seq<int>
    requires Stops(tabs) && i <= |tabs| && col <= end && (i < |tabs| ==> tabs[i] > col)
    decreases |tabs| - i
  {
    if i < |tabs| && tabs[i] <= end then [TAB] + GapFrom(tabs, i + 1, tabs[i], end) else Blanks(end - col)
  }

  /** A run of b blanks, with the pointer at i. */
  function RunFrom(tabs: seq<int>, n: int, i: nat, col: int, b: nat): seq<int>
    requires Stops(tabs) && i <= |tabs|
  {
    if b > 0 && (b >= n || col == 1) then GapFrom(tabs, Past(tabs, i, col), col, col + b) else Blanks(b)
  }

  /** Where the pointer stands after the run. */
  function RunPointer(tabs: seq<int>, n: int, i: nat, col: int, b: nat): (k: nat)
    requires i <= |tabs|
    ensures k <= |tabs|
  {
    if b == 0 then i else if b >= n || col == 1 then Past(tabs, i, col + b) else Past(tabs, i, col)
  }

  /** Any line with its runs of blanks compressed, with the pointer at i. */
  function SqueezeFrom(line: seq<int>, tabs: seq<int>, n: int, i: nat, col: int): seq<int>
    requires Stops(tabs) && i <= |tabs|
    decreases |line|
  {
    var b := Lead(line);
    if b == |line| then RunFrom(tabs, n, i, col, b)
    else
      RunFrom(tabs, n, i, col, b)
      + ([line[b]] + SqueezeFrom(line[b + 1..], tabs, n, RunPointer(tabs, n, i, col, b), col + b + Move(line[b])))
  }

  lemma SliceAfter(line: seq<int>, from: nat, b: nat)
    requires from + b < |line|
    ensures line[from..][b] == line[from + b] && line[from..][b + 1..] == line[from + b + 1..]
  {
  }

  /** Compresses a line. */
  method Contract(line: seq<int>, tabs: seq<int>, n: int) returns (out: seq<int>)
    requires Stops(tabs)
    ensures out == SqueezeFrom(line, tabs, n, 0, 1)
  {
    hide *;
    out := [];
    var itab, nextcol, p := 0, 1, 0;
    var going := true;
    assert line[0..] == line;
    NothingBefore(SqueezeFrom(line, tabs, n, 0, 1));
    while going
      invariant 0 <= p <= |line| && 0 <= itab <= |tabs|
      invariant going ==> SqueezeFrom(line, tabs, n, 0, 1) == out + SqueezeFrom(line[p..], tabs, n, itab, nextcol)
      invariant !going ==> SqueezeFrom(line, tabs, n, 0, 1) == out
      decreases |line| - p, going
    {
      ghost var was, i, col, from := out, itab, nextcol, p;
      SqueezeFromIs(line[p..], tabs, n, itab, nextcol);
      var blnkcnt := CountBlanks(line, p);
      p := p + blnkcnt;
      out, nextcol, itab := PutRun(tabs, n, nextcol, blnkcnt, itab, out);
      if p < |line| {
        var c := line[p];
        SliceAfter(line, from, blnkcnt);
        out := out + [c];
        if c >= BLANK {
          nextcol := nextcol + 1;
        } else if c == BS || c == ESC {
          nextcol := nextcol - 1;
        }
        Moves(c);
        p := p + 1;
        TextGrows(was, RunFrom(tabs, n, i, col, blnkcnt), c, SqueezeFrom(line[p..], tabs, n, itab, nextcol));
      } else {
        going := false;
      }
    }
  }

  /** Where the column never goes back, expanding what the loop writes gives the line. */
  lemma ContractForward(line: seq<int>, tabs: seq<int>, n: int)
    requires Stops(tabs) && Forward(line)
    ensures var out := SqueezeFrom(line, tabs, n, 0, 1);
            out == Squeeze(line, tabs, n, 1) && Forward(out) && (TAB !in line ==> Expand(out, tabs, 1) == line)
  {
    hide *;
    SqueezeForwardSame(line, tabs, n, 0, 1);
    SqueezeForward(line, tabs, n, 1);
    if TAB !in line {
      RoundTrip(line, tabs, n, 1);
    }
  }

  lemma TextGrows(was: seq<int>, run: seq<int>, c: int, rest: seq<int>)
    ensures was + After(run, c, rest) == was + run + [c] + rest
  {
  }

  /** A run, the character that ends it, and what follows. */
  function After(run: seq<int>, c: int, rest: seq<int>): seq<int> {
    run + ([c] + rest)
  }

  function Three(a: seq<int>, b: seq<int>, c: seq<int>): seq<int> {
    a + b + c
  }

  lemma AfterThree(run: seq<int>, c: int, s: seq<int>, g: seq<int>, e: seq<int>)
    ensures After(run, c, Three(s, g, e)) == Three(After(run, c, s), g, e)
  {
  }

  lemma SqueezeFromIs(line: seq<int>, tabs: seq<int>, n: int, i: nat, col: int)
    requires Stops(tabs) && i <= |tabs|
    ensures var b := Lead(line);
            SqueezeFrom(line, tabs, n, i, col) == if b == |line| then RunFrom(tabs, n, i, col, b)
              else After(RunFrom(tabs, n, i, col, b), line[b],
                   SqueezeFrom(line[b + 1..], tabs, n, RunPointer(tabs, n, i, col, b), col + b + Move(line[b])))
  {
    hide RunFrom, RunPointer, Move, Lead;
  }

  lemma {:induction false} GapForwardSame(tabs: seq<int>, i: nat, col: int, end: int)
    requires Stops(tabs) && i <= |tabs| && col <= end && (i < |tabs| ==> tabs[i] > col)
    requires forall j | 0 <= j < i :: tabs[j] <= col
    ensures GapFrom(tabs, i, col, end) == Gap(tabs, col, end)
    decreases |tabs| - i
  {
    hide NextStop, Blanks, Gap;
    FromPointer(tabs, i, col);
    BeyondHere(tabs, i, col);
    GapIs(tabs, col, end);
    if i < |tabs| && tabs[i] <= end {
      GapForwardSame(tabs, i + 1, tabs[i], end);
    }
  }

  lemma BeyondHere(tabs: seq<int>, i: nat, col: int)
    requires Stops(tabs) && i <= |tabs| && (i < |tabs| ==> tabs[i] > col)
    ensures Beyond(tabs, i, col) == if i < |tabs| then tabs[i] else 0
  {
  }

  lemma RunForwardSame(tabs: seq<int>, n: int, i: nat, col: int, b: nat)
    requires Stops(tabs) && i <= |tabs| && forall j | 0 <= j < i :: tabs[j] <= col
    ensures RunFrom(tabs, n, i, col, b) == Run(tabs, n, col, b)
    ensures forall j | 0 <= j < RunPointer(tabs, n, i, col, b) :: tabs[j] <= col + b
  {
    hide Gap, GapFrom, Blanks;
    var k := Past(tabs, i, col);
    if b == 0 {
      EmptyGap(tabs, col);
      NoBlanks();
    } else {
      GapForwardSame(tabs, k, col, col + b);
    }
  }

  lemma NoBlanks()
    ensures Blanks(0) == []
  {
  }

  /** Where the column never goes back, the pointer makes no difference here either. */
  lemma {:induction false} SqueezeForwardSame(line: seq<int>, tabs: seq<int>, n: int, i: nat, col: int)
    requires Forward(line) && Stops(tabs) && i <= |tabs| && forall j | 0 <= j < i :: tabs[j] <= col
    ensures SqueezeFrom(line, tabs, n, i, col) == Squeeze(line, tabs, n, col)
    decreases |line|
  {
    hide Squeeze, SqueezeFrom, Run, RunFrom, RunPointer, Blanks, Lead, Stops;
    var b := Lead(line);
    SqueezeIs(line, tabs, n, col);
    SqueezeFromIs(line, tabs, n, i, col);
    RunForwardSame(tabs, n, i, col, b);
    if b < |line| {
      Moves(line[b]);
      Widths(line[b]);
      SqueezeForwardSame(line[b + 1..], tabs, n, RunPointer(tabs, n, i, col, b), col + b + Width(line[b]));
    }
  }

  /** The run becomes tabs, at least in part. */
  predicate Tabbed(tabs: seq<int>, n: int, i: nat, col: int, b: nat)
    requires i <= |tabs|
  {
    b > 0 && (b >= n || col == 1) && Past(tabs, i, col) < |tabs| && tabs[Past(tabs, i, col)] <= col + b
  }

  /** Whenever a run becomes tabs, the reader's pointer j leads to the same stop as the writer's pointer i. The reader
      moves its pointer for tabs only, the writer for blanks too. */
  ghost predicate InStep(line: seq<int>, tabs: seq<int>, n: int, i: nat, j: nat, col: int)
    requires i <= |tabs| && j <= |tabs|
    decreases |line|
  {
    var b := Lead(line);
    && (Tabbed(tabs, n, i, col, b) ==> Past(tabs, j, col) == Past(tabs, i, col))
    && (b < |line| ==> InStep(line[b + 1..], tabs, n, RunPointer(tabs, n, i, col, b), ReaderAfter(tabs, n, i, j, col, b),
                              col + b + Move(line[b])))
  }

  function ReaderAfter(tabs: seq<int>, n: int, i: nat, j: nat, col: int, b: nat): (k: nat)
    requires i <= |tabs| && j <= |tabs|
    ensures k <= |tabs|
  {
    if Tabbed(tabs, n, i, col, b) then Past(tabs, i, col + b) - 1 else j
  }

  lemma InStepIs(line: seq<int>, tabs: seq<int>, n: int, i: nat, j: nat, col: int)
    requires i <= |tabs| && j <= |tabs|
    ensures var b := Lead(line);
            InStep(line, tabs, n, i, j, col) <==>
              (Tabbed(tabs, n, i, col, b) ==> Past(tabs, j, col) == Past(tabs, i, col))
              && (b < |line| ==> InStep(line[b + 1..], tabs, n, RunPointer(tabs, n, i, col, b),
                                        ReaderAfter(tabs, n, i, j, col, b), col + b + Move(line[b])))
  {
    hide Lead, Tabbed, RunPointer, ReaderAfter, Past, Move;
  }

  lemma PastFrom(tabs: seq<int>, i: nat, k: nat, col: int)
    requires Stops(tabs) && i <= k <= |tabs| && forall j | i <= j < k :: tabs[j] <= col
    ensures Past(tabs, i, col) == Past(tabs, k, col)
  {
  }

  lemma PastMonotone(tabs: seq<int>, j: nat, i: nat, col: int, end: int)
    requires Stops(tabs) && j <= i <= |tabs| && col <= end
    ensures Past(tabs, j, col) <= Past(tabs, i, col) <= Past(tabs, i, end)
    ensures Past(tabs, Past(tabs, i, col), end) == Past(tabs, i, end)
  {
    var k := Past(tabs, i, col);
    PastFrom(tabs, i, k, end);
  }

  /** Blanks between tabs are read as they stand. */
  lemma {:induction false} ReadBlanks(m: nat, rest: seq<int>, tabs: seq<int>, j: nat, at: int)
    requires j <= |tabs|
    ensures ExpandFrom(Blanks(m) + rest, tabs, j, at) == Blanks(m) + ExpandFrom(rest, tabs, j, at + m)
  {
    hide ExpandFrom;
    if m == 0 {
      NoBlanks();
      assert Blanks(0) + rest == rest;
      assert Blanks(0) + ExpandFrom(rest, tabs, j, at) == ExpandFrom(rest, tabs, j, at);
    } else {
      var tail := Blanks(m - 1) + rest;
      assert Blanks(m) + rest == [BLANK] + tail;
      ExpandFromNext(BLANK, tail, tabs, j, at);
      ReadBlanks(m - 1, rest, tabs, j, at + 1);
      assert [BLANK] + (Blanks(m - 1) + ExpandFrom(rest, tabs, j, at + m)) == Blanks(m) + ExpandFrom(rest, tabs, j, at + m);
    }
  }

  /** What the reader, whose pointer leads to stop p, makes of a gap written with the pointer at k. */
  lemma {:induction false} ReadGap(tabs: seq<int>, k: nat, col: int, end: int, j: nat, at: int, rest: seq<int>)
    returns (x: nat, ptr: nat)
    requires Stops(tabs) && k <= |tabs| && col <= end && (k < |tabs| ==> tabs[k] > col)
    requires j <= |tabs| && Past(tabs, j, at) <= k
    ensures ptr <= |tabs|
    ensures ExpandFrom(GapFrom(tabs, k, col, end) + rest, tabs, j, at) == Blanks(x) + ExpandFrom(rest, tabs, ptr, at + x)
    ensures var m, p := Past(tabs, k, end) - k, Past(tabs, j, at);
            if m == 0 then x == end - col && ptr == j
            else p + m - 1 < |tabs| && ptr == p + m - 1 && at + x - end == tabs[p + m - 1] - tabs[k + m - 1]
    decreases |tabs| - k
  {
    hide ExpandFrom, Blanks, Stops, GapFrom, Past;
    PositiveStops(tabs);
    GapFromIs(tabs, k, col, end);
    if k < |tabs| && tabs[k] <= end {
      var p := Past(tabs, j, at);
      var gap := GapFrom(tabs, k + 1, tabs[k], end);
      PastOne(tabs, p);
      x, ptr := ReadGap(tabs, k + 1, tabs[k], end, p, tabs[p], rest);
      Regroup([TAB], gap, rest);
      ExpandFromNext(TAB, gap + rest, tabs, j, at);
      BlanksAdd(tabs[p] - at, x);
      Regroup(Blanks(tabs[p] - at), Blanks(x), ExpandFrom(rest, tabs, ptr, tabs[p] + x));
      x := tabs[p] - at + x;
    } else {
      ReadBlanks(end - col, rest, tabs, j, at);
      x, ptr := end - col, j;
    }
  }

  lemma PastOne(tabs: seq<int>, p: nat)
    requires Stops(tabs) && p < |tabs|
    ensures Past(tabs, p, tabs[p]) == p + 1
  {
  }

  /** What the reader makes of a compressed run. */
  lemma ReadFull(tabs: seq<int>, i: nat, j: nat, col: int, b: nat, rest: seq<int>) returns (x: nat, ptr: nat)
    requires Stops(tabs) && j <= i <= |tabs|
    ensures ptr <= |tabs| && x <= b
    ensures ExpandFrom(GapFrom(tabs, Past(tabs, i, col), col, col + b) + rest, tabs, j, col)
         == Blanks(x) + ExpandFrom(rest, tabs, ptr, col + x)
    ensures var k, p := Past(tabs, i, col), Past(tabs, j, col);
            if k == |tabs| || tabs[k] > col + b then x == b && ptr == j
            else if p == k then x == b && ptr == Past(tabs, i, col + b) - 1
            else x < b
  {
    hide *;
    PositiveStops(tabs);
    PastMonotone(tabs, j, i, col, col + b);
    var k := Past(tabs, i, col);
    GapFromIs(tabs, k, col, col + b);
    x, ptr := ReadGap(tabs, k, col, col + b, j, col, rest);
  }

  /** What the reader makes of a run: as many blanks if it is in step, and fewer if it is not. */
  lemma ReadRun(tabs: seq<int>, n: int, i: nat, j: nat, col: int, b: nat, rest: seq<int>) returns (x: nat, ptr: nat)
    requires Stops(tabs) && j <= i <= |tabs|
    ensures ptr <= |tabs|
    ensures ExpandFrom(RunFrom(tabs, n, i, col, b) + rest, tabs, j, col) == Blanks(x) + ExpandFrom(rest, tabs, ptr, col + x)
    ensures x <= b
    ensures if Tabbed(tabs, n, i, col, b) ==> Past(tabs, j, col) == Past(tabs, i, col)
            then x == b && ptr == ReaderAfter(tabs, n, i, j, col, b) <= RunPointer(tabs, n, i, col, b)
            else x < b
  {
    hide ExpandFrom, Blanks, GapFrom, Stops, Past;
    PastMonotone(tabs, j, i, col, col + b);
    if b > 0 && (b >= n || col == 1) {
      x, ptr := ReadFull(tabs, i, j, col, b, rest);
    } else {
      ReadBlanks(b, rest, tabs, j, col);
      x, ptr := b, j;
    }
  }

  lemma ShorterRun(line: seq<int>, x: nat, tail: seq<int>)
    requires x < Lead(line) && (tail == [] || tail[0] != BLANK)
    ensures Blanks(x) + tail != line
  {
    var r := Blanks(x) + tail;
    assert line[..Lead(line)][x] == BLANK;
    if tail != [] {
      assert r[x] == tail[0];
    }
  }

  lemma SameTail(a: seq<int>, c: int, tail: seq<int>, line: seq<int>)
    requires |a| < |line| && line[..|a|] == a && line[|a|] == c
    ensures a + ([c] + tail) == line <==> tail == line[|a| + 1..]
  {
    var n := |a| + 1;
    assert (a + ([c] + tail))[n..] == tail;
    assert line == line[..|a|] + ([c] + line[n..]);
  }

  lemma SameRun(line: seq<int>, tail: seq<int>)
    requires Lead(line) < |line|
    ensures var b := Lead(line);
            Blanks(b) + ([line[b]] + tail) == line <==> tail == line[b + 1..]
  {
    hide *;
    var b := Lead(line);
    SameTail(Blanks(b), line[b], tail, line);
  }

  /** Reading back what was written gives the line if and only if reader and writer keep in step. */
  lemma {:induction false} RoundTripExactly(line: seq<int>, tabs: seq<int>, n: int, i: nat, j: nat, col: int)
    requires TAB !in line && Stops(tabs) && j <= i <= |tabs|
    ensures ExpandFrom(SqueezeFrom(line, tabs, n, i, col), tabs, j, col) == line <==> InStep(line, tabs, n, i, j, col)
    decreases |line|
  {
    hide ExpandFrom, SqueezeFrom, InStep, RunFrom, RunPointer, ReaderAfter, Tabbed, Past, Blanks, Lead, Stops;
    var b := Lead(line);
    SqueezeFromIs(line, tabs, n, i, col);
    InStepIs(line, tabs, n, i, j, col);
    var step := Tabbed(tabs, n, i, col, b) ==> Past(tabs, j, col) == Past(tabs, i, col);
    if b == |line| {
      var x, ptr := ReadRun(tabs, n, i, j, col, b, []);
      NothingExpandsFrom(tabs, ptr, col + x);
      assert RunFrom(tabs, n, i, col, b) + [] == RunFrom(tabs, n, i, col, b);
      assert Blanks(x) + [] == Blanks(x);
      assert line[..b] == line;
    } else {
      var c, more := line[b], line[b + 1..];
      var k, to := RunPointer(tabs, n, i, col, b), col + b + Move(c);
      var text := SqueezeFrom(more, tabs, n, k, to);
      var x, ptr := ReadRun(tabs, n, i, j, col, b, [c] + text);
      ExpandFromNext(c, text, tabs, ptr, col + x);
      if step {
        RoundTripExactly(more, tabs, n, k, ptr, to);
        SameRun(line, ExpandFrom(text, tabs, ptr, to));
      } else {
        ShorterRun(line, x, [c] + ExpandFrom(text, tabs, ptr, col + x + Move(c)));
      }
    }
  }

  /** A line with backspaces that is not read back as it was. */
  lemma BackspaceBreaks()
    ensures var line, tabs := [97, BLANK, BS, BS, BLANK, BLANK], [2, 3];
            && Stops(tabs) && TAB !in line && !InStep(line, tabs, 2, 0, 0, 1)
            && ExpandFrom(SqueezeFrom(line, tabs, 2, 0, 1), tabs, 0, 1) != line
  {
    var line, tabs := [97, BLANK, BS, BS, BLANK, BLANK], [2, 3];
    var l1, l2, l3 := [BLANK, BS, BS, BLANK, BLANK], [BS, BLANK, BLANK], [BLANK, BLANK];
    LeadIs(line, 0);
    LeadIs(l1, 1);
    LeadIs(l2, 0);
    LeadIs(l3, 2);
    assert line[1..] == l1 && l1[2..] == l2 && l2[1..] == l3;
    assert !InStep(l3, tabs, 2, 1, 0, 1);
    assert !InStep(l2, tabs, 2, 1, 0, 2);
    assert !InStep(l1, tabs, 2, 0, 0, 2);
    RoundTripExactly(line, tabs, 2, 0, 0, 1);
  }

  /** The two loops one after the other: reading what was written with the same stops gives the line back if and only
      if reader and writer keep in step, as they do where the column never goes back. */
  method ContractThenGetLine(line: seq<int>, tabs: seq<int>, n: int) returns (r: seq<int>)
    requires Stops(tabs)
    ensures TAB !in line ==> (r == line <==> InStep(line, tabs, n, 0, 0, 1))
    ensures Forward(line) && TAB !in line ==> r == line
  {
    hide *;
    var out := Contract(line, tabs, n);
    r := GetLine(out, tabs);
    if Forward(line) {
      ContractForward(line, tabs, n);
    }
    if TAB !in line {
      RoundTripExactly(line, tabs, n, 0, 0, 1);
    }
  }

  lemma Widths(c: int)
    ensures Width(c) == if c >= BLANK then 1 else 0
  {
  }

  method CountBlanks(line: seq<int>, p: nat) returns (b: nat)
    requires p <= |line|
    ensures b == Lead(line[p..])
  {
    b := 0;
    while p + b < |line| && line[p + b] == BLANK
      invariant p + b <= |line| && Lead(line[p..]) == b + Lead(line[p + b..])
    {
      assert line[p + b..][1..] == line[p + b + 1..];
      b := b + 1;
    }
  }

  /** Puts out a run of blanks, some of them as tabs. */
  method PutRun(tabs: seq<int>, n: int, col: int, b: nat, i: nat, was: seq<int>)
    returns (out: seq<int>, nextcol: int, itab: nat)
    requires Stops(tabs) && i <= |tabs|
    ensures out == was + RunFrom(tabs, n, i, col, b) && nextcol == col + b && itab == RunPointer(tabs, n, i, col, b)
  {
    hide GapFrom, Stops, Blanks, Past;
    out, nextcol, itab := was, col, i;
    if b > 0 {
      itab := SkipStops(tabs, itab, nextcol);
      if b >= n || nextcol == 1 {
        PastMonotone(tabs, i, i, col, col + b);
        out, nextcol, itab := PutTabs(tabs, col, b, itab, was);
      } else {
        out, nextcol := PutBlanks(b, out, nextcol);
      }
    } else {
      NoBlanks();
      assert was + [] == was;
    }
  }

  lemma EmptyGap(tabs: seq<int>, col: int)
    ensures Gap(tabs, col, col) == []
  {
  }

  /** As many blanks as are left. */
  method PutBlanks(b: nat, was: seq<int>, col: int) returns (out: seq<int>, nextcol: int)
    ensures out == was + Blanks(b) && nextcol == col + b
  {
    out, nextcol := was, col + b;
    var blnkcnt := b;
    while blnkcnt > 0
      invariant 0 <= blnkcnt <= b && out == was + Blanks(b - blnkcnt)
    {
      out := out + [BLANK];
      blnkcnt := blnkcnt - 1;
    }
  }

  /** A tab for every stop the run reaches. */
  method PutTabs(tabs: seq<int>, col: int, b: nat, i: nat, was: seq<int>)
    returns (out: seq<int>, nextcol: int, itab: nat)
    requires Stops(tabs) && i <= |tabs| && (i < |tabs| ==> tabs[i] > col)
    ensures out == was + GapFrom(tabs, i, col, col + b) && nextcol == col + b && itab == Past(tabs, i, col + b)
  {
    hide GapFrom, Blanks, Past, Stops;
    PositiveStops(tabs);
    out, nextcol, itab := was, col, i;
    var blnkcnt: nat := b;
    while itab < |tabs| && tabs[itab] <= nextcol + blnkcnt
      invariant itab <= |tabs| && nextcol + blnkcnt == col + b && (itab < |tabs| ==> tabs[itab] > nextcol)
      invariant out + GapFrom(tabs, itab, nextcol, col + b) == was + GapFrom(tabs, i, col, col + b)
      invariant Past(tabs, itab, col + b) == Past(tabs, i, col + b)
    {
      var t := tabs[itab] - nextcol;
      GapFromIs(tabs, itab, nextcol, col + b);
      Regroup(out, [TAB], GapFrom(tabs, itab + 1, tabs[itab], col + b));
      out := out + [TAB];
      blnkcnt := blnkcnt - t;
      nextcol := nextcol + t;
      itab := itab + 1;
    }
    GapFromIs(tabs, itab, nextcol, col + b);
    out, nextcol := PutBlanks(blnkcnt, out, nextcol);
  }

  lemma GapFromIs(tabs: seq<int>, i: nat, col: int, end: int)
    requires Stops(tabs) && i <= |tabs| && col <= end && (i < |tabs| ==> tabs[i] > col)
    ensures i < |tabs| && tabs[i] <= end ==>
              (i + 1 < |tabs| ==> tabs[i + 1] > tabs[i])
              && GapFrom(tabs, i, col, end) == [TAB] + GapFrom(tabs, i + 1, tabs[i], end)
              && Past(tabs, i, end) == Past(tabs, i + 1, end)
    ensures i == |tabs| || tabs[i] > end ==> GapFrom(tabs, i, col, end) == Blanks(end - col) && Past(tabs, i, end) == i
  {
  }
}
