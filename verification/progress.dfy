/** The console progress bar of rickpy: a fixed-width bracketed bar with the
    completion percentage spliced into its middle, followed by a label and
    an optional status, redrawn in place by erasing the previous line.

    Only the strings are modelled. Writing them to the terminal or to a
    notebook cell is left to the caller, and whether a notebook kernel is
    attached is a plain boolean given at construction. */
module Progress {

  import opened Wrappers
  import opened Seqs
  import Decimal

  /** Display width of the bar, brackets included. */
  const Width: nat := 50
  /** Where the percentage text is spliced in: `int(width/2) - 1`. */
  const Offset: nat := Width / 2 - 1
  /** The character of completed cells. */
  const Fill: char := '-'
  /** How many log messages the notebook scrollback shows. */
  const LogWindow: nat := 5

  /** One piece of a label template: literal text, the `{k}` field or the
      `{n}` field. */
  datatype Token = Lit(lit: string) | StepField | TotalField

  type Template = seq<Token>

  /** `'{k} out of {n} complete'` */
  const DefaultTemplate: Template :=
    [StepField, Lit(" out of "), TotalField, Lit(" complete")]

  /** The state of one progress bar. `n` is the total number of steps and
      `k` the last step rendered; `text` is the last rendered line and
      `content` the last string handed to the output (erase, then redraw). */
  datatype ProgressBar = ProgressBar(
    n: int,
    k: nat,
    content: string,
    progress: Template,
    status: string,
    lastLength: nat,
    text: string,
    msgLog: seq<string>,
    kernel: bool)

  /** `int(k*100/n)`: the completed percentage, rounded down. */
  function Percent(k: nat, n: int): (p: nat)
    requires n > 0
    ensures k * 100 - n < p * n <= k * 100
    ensures k <= n ==> p <= 100
    ensures k == n ==> p == 100
    ensures k == 0 ==> p == 0
  {
    var p := k * 100 / n;
    FloorDiv(k * 100, n);
    PercentRange(k, n, p);
    p
  }

  lemma FloorDiv(a: nat, n: int)
    requires n > 0
    ensures a - n < (a / n) * n <= a
  {
    assert a == (a / n) * n + a % n;
  }

  lemma PercentRange(k: nat, n: int, p: nat)
    requires n > 0 && k * 100 - n < p * n <= k * 100
    ensures k <= n ==> p <= 100
    ensures k == n ==> p == 100
    ensures k == 0 ==> p == 0
  {
    if k <= n {
      MulCancel(p, 100, n);
    }
    if k == n {
      MulCancelStrict(99, p, n);
    }
    if k == 0 {
      MulCancelStrict(p, 1, n);
    }
  }

  lemma MulCancel(a: int, b: int, n: int)
    requires n > 0 && a * n <= b * n
    ensures a <= b
  {
  }

  lemma MulCancelStrict(a: int, b: int, n: int)
    requires n > 0 && a * n < b * n
    ensures a < b
  {
  }

  /** `int(round(percent/100.0 * (width-2)))` in exact arithmetic: the
      number of filled cells is the integer strictly nearest to
      `p * (Width - 2) / 100`, so no tie ever has to be broken. */
  function FillCount(p: nat): (c: nat)
    ensures -50 < c * 100 - p * (Width - 2) < 50
    ensures p <= 100 ==> c <= Width - 2
    ensures p == 100 ==> c == Width - 2
    ensures p == 0 ==> c == 0
  {
    (p * (Width - 2) + 50) / 100
  }

  /** `'%d%%' % percent` */
  function PercentText(p: nat): (t: string)
    ensures 2 <= |t| && t[|t| - 1] == '%'
    ensures Decimal.AllDigits(t[..|t| - 1])
    ensures Decimal.ToNat(t[..|t| - 1]) == p
    ensures p <= 100 ==> |t| <= 4
    ensures |t| > 2 ==> t[0] != '0'
  {
    var d := Decimal.FromNat(p);
    Decimal.ToNatFromNat(p);
    Decimal.FromNatWidth(p, if p <= 100 then 3 else |d|);
    assert (d + "%")[..|d|] == d;
    d + "%"
  }

  /** The bracketed bar before the percentage is spliced in: `c` fill
      characters, then spaces up to the fixed width. When `c` exceeds the
      interior, Python's `' ' * negative` is empty and the bar grows. */
  function RawBar(c: nat): (r: string)
    ensures |r| == Max(Width, c + 2)
    ensures r[0] == '[' && r[|r| - 1] == ']'
    ensures forall i :: 1 <= i < |r| - 1 ==> r[i] == (if i <= c then Fill else ' ')
  {
    "[" + Repeat(Fill, c) + Repeat(' ', Width - 2 - c) + "]"
  }

  /** `t[:Offset] + pct + t[Offset+len(pct):]`: the percentage text
      overwrites the characters at `Offset`, everything else stays. */
  function Overlay(t: string, pct: string): (r: string)
    requires Offset <= |t|
    ensures |r| == Max(|t|, Offset + |pct|)
    ensures forall i :: 0 <= i < Offset ==> r[i] == t[i]
    ensures r[Offset..Offset + |pct|] == pct
    ensures forall i :: Offset + |pct| <= i < |r| ==> r[i] == t[i]
  {
    Take(t, Offset) + pct + Drop(t, Offset + |pct|)
  }

  /** Whether position `i` of the bar is covered by the percentage text. */
  predicate InOverlay(i: int, p: nat)
  {
    Offset <= i < Offset + |PercentText(p)|
  }

  /** The bar segment of a rendered line. For `k <= n` it is exactly
      `Width` characters between brackets: cells up to the fill count hold
      the fill character, later cells a space, except where the percentage
      text is spliced in. For `k > n` it is not clamped and may be longer. */
  function Bar(k: nat, n: int): (r: string)
    requires n > 0
    ensures Width <= |r| && r[0] == '['
    ensures Offset + |PercentText(Percent(k, n))| <= |r|
    ensures r[Offset..Offset + |PercentText(Percent(k, n))|] == PercentText(Percent(k, n))
    ensures k <= n ==> |r| == Width && r[Width - 1] == ']'
    ensures k <= n ==> forall i :: 1 <= i < Width - 1 && !InOverlay(i, Percent(k, n)) ==>
      r[i] == (if i <= FillCount(Percent(k, n)) then Fill else ' ')
  {
    var p := Percent(k, n);
    BarShape(k <= n, p, FillCount(p));
    Overlay(RawBar(FillCount(p)), PercentText(p))
  }

  /** The shape of the spliced bar for percentage `p` and fill count `c`. */
  lemma BarShape(bounded: bool, p: nat, c: nat)
    requires bounded ==> p <= 100 && c <= Width - 2
    ensures var r := Overlay(RawBar(c), PercentText(p));
      && Width <= |r| && r[0] == '['
      && (bounded ==> |r| == Width && r[Width - 1] == ']')
      && (bounded ==> forall i :: 1 <= i < Width - 1 && !InOverlay(i, p) ==>
        r[i] == (if i <= c then Fill else ' '))
  {
  }

  /** At the last step every interior cell outside the percentage text is
      filled, and the text reads `100%`. */
  lemma FullBar(n: int)
    requires n > 0
    ensures Bar(n, n)[Offset..Offset + 4] == "100%"
    ensures forall i :: 1 <= i < Width - 1 && !(Offset <= i < Offset + 4) ==> Bar(n, n)[i] == Fill
  {
    assert Percent(n, n) == 100 && FillCount(100) == Width - 2;
    PercentTextOf100();
    PlainCells(Bar(n, n), 100, Width - 2, Fill);
  }

  lemma PercentTextOf100()
    ensures PercentText(100) == "100%"
  {
    assert Decimal.FromNat(100) == "100";
  }

  lemma PercentTextOf0()
    ensures PercentText(0) == "0%"
  {
    assert Decimal.FromNat(0) == "0";
  }

  /** When the fill count makes every interior cell the same character,
      every cell outside the percentage text holds it. */
  lemma PlainCells(bar: string, p: nat, c: nat, ch: char)
    requires |bar| == Width
    requires (ch == Fill && c == Width - 2) || (ch == ' ' && c == 0)
    requires forall i :: 1 <= i < Width - 1 && !InOverlay(i, p) ==>
      bar[i] == (if i <= c then Fill else ' ')
    ensures forall i :: 1 <= i < Width - 1 && !(Offset <= i < Offset + |PercentText(p)|) ==> bar[i] == ch
  {
    forall i | 1 <= i < Width - 1 && !(Offset <= i < Offset + |PercentText(p)|)
      ensures bar[i] == ch
    {
      assert !InOverlay(i, p);
    }
  }

  /** At step zero every interior cell outside the percentage text is a
      space, and the text reads `0%`. */
  lemma EmptyBar(n: int)
    requires n > 0
    ensures Bar(0, n)[Offset..Offset + 2] == "0%"
    ensures forall i :: 1 <= i < Width - 1 && !(Offset <= i < Offset + 2) ==> Bar(0, n)[i] == ' '
  {
    assert Percent(0, n) == 0 && FillCount(0) == 0;
    PercentTextOf0();
    PlainCells(Bar(0, n), 0, 0, ' ');
  }

  /** `progress.format(k=k, n=n)` for a template of literals and the two
      recognised fields. */
  function Format(t: Template, k: nat, n: nat): (r: string)
    ensures |t| == 0 ==> r == ""
    ensures |t| > 0 ==> Field(t[0], k, n) <= r
    ensures |t| == 1 ==> r == Field(t[0], k, n)
  {
    if |t| == 0 then "" else Field(t[0], k, n) + Format(t[1..], k, n)
  }

  /** The text one token stands for. */
  function Field(tok: Token, k: nat, n: nat): string
  {
    match tok
    case Lit(s) => s
    case StepField => Decimal.FromNat(k)
    case TotalField => Decimal.FromNat(n)
  }

  /** Filling in a template piecewise is filling in the whole. */
  lemma {:induction false} FormatAppend(t1: Template, t2: Template, k: nat, n: nat)
    ensures Format(t1 + t2, k, n) == Format(t1, k, n) + Format(t2, k, n)
    decreases |t1|
  {
    if |t1| == 0 {
      assert t1 + t2 == t2;
    } else {
      assert (t1 + t2)[0] == t1[0];
      assert (t1 + t2)[1..] == t1[1..] + t2;
      FormatAppend(t1[1..], t2, k, n);
      Associate(Field(t1[0], k, n), Format(t1[1..], k, n), Format(t2, k, n));
    }
  }

  /** The default label reads `k out of n complete`. */
  lemma DefaultLabel(k: nat, n: nat)
    ensures Format(DefaultTemplate, k, n)
      == Decimal.FromNat(k) + " out of " + Decimal.FromNat(n) + " complete"
  {
    var last: Template := [Lit(" complete")];
    FormatCons(Lit(" complete"), [], k, n);
    assert [Lit(" complete")] + [] == last;
    FormatCons(TotalField, last, k, n);
    FormatCons(Lit(" out of "), [TotalField] + last, k, n);
    FormatCons(StepField, [Lit(" out of ")] + ([TotalField] + last), k, n);
    assert [StepField] + ([Lit(" out of ")] + ([TotalField] + last)) == DefaultTemplate;
    Regroup(Decimal.FromNat(k), " out of ", Decimal.FromNat(n), " complete");
  }

  lemma Associate(a: string, b: string, c: string)
    ensures a + (b + c) == a + b + c
  {
  }

  lemma Regroup(a: string, b: string, c: string, d: string)
    ensures a + (b + (c + (d + ""))) == a + b + c + d
  {
  }

  /** Filling in a template token by token. */
  lemma FormatCons(tok: Token, t: Template, k: nat, n: nat)
    ensures Format([tok] + t, k, n) == Field(tok, k, n) + Format(t, k, n)
  {
    assert ([tok] + t)[1..] == t;
  }

  /** `' (%s)' % status`, appended only when the status is non-empty. */
  function Suffix(status: string): (r: string)
    ensures |r| == 0 <==> status == ""
    ensures status != "" ==> |r| == |status| + 3
    ensures status != "" ==> r[..2] == " (" && r[2..|r| - 1] == status && r[|r| - 1] == ')'
  {
    if status == "" then "" else " (" + status + ")"
  }

  /** The whole rendered line: the bar, one space, the filled-in label and,
      for a non-empty status only, ` (status)`. */
  function Line(n: int, progress: Template, k: nat, status: string): (r: string)
    requires n > 0
    ensures var bar := Bar(k, n); var lab := Format(progress, k, n);
      && |r| >= |bar| + 1 + |lab|
      && r[..|bar|] == bar
      && r[|bar|] == ' '
      && r[|bar| + 1..|bar| + 1 + |lab|] == lab
      && (|r| == |bar| + 1 + |lab| <==> status == "")
      && (status != "" ==> r[|bar| + 1 + |lab|..] == " (" + status + ")")
  {
    var bar := Bar(k, n);
    var lab := Format(progress, k, n);
    var suf := Suffix(status);
    LineShape(bar, lab, status, suf);
    bar + " " + lab + suf
  }

  /** The layout of a line, from its three parts. */
  lemma LineShape(bar: string, lab: string, status: string, suf: string)
    requires |suf| == 0 <==> status == ""
    requires status != "" ==> suf == " (" + status + ")"
    ensures var r := bar + " " + lab + suf;
      && |r| >= |bar| + 1 + |lab|
      && r[..|bar|] == bar
      && r[|bar|] == ' '
      && r[|bar| + 1..|bar| + 1 + |lab|] == lab
      && (|r| == |bar| + 1 + |lab| <==> status == "")
      && (status != "" ==> r[|bar| + 1 + |lab|..] == " (" + status + ")")
  {
    var r := bar + " " + lab + suf;
    assert r[..|bar|] == bar;
    assert r[|bar| + 1..|bar| + 1 + |lab|] == lab;
    assert r[|bar| + 1 + |lab|..] == suf;
  }

  /** `_update(k, status)`: renders step `k` and records the line and its
      length; the stored status and everything else are left alone. */
  function Update(b: ProgressBar, k: nat, status: string): (r: ProgressBar)
    requires b.n > 0
    ensures r.k == k && r.lastLength == |r.text|
    ensures r.text == Line(b.n, b.progress, k, status)
    ensures r.(k := b.k, text := b.text, lastLength := b.lastLength) == b
  {
    var text := Line(b.n, b.progress, k, status);
    b.(k := k, text := text, lastLength := |text|)
  }

  /** `ProgressBar(n, progress, status)`: step zero is rendered once, with
      an empty status, to record the initial line length; the log starts
      empty. */
  function New(n: int, progress: Template, status: string, kernel: bool): (r: ProgressBar)
    requires n > 0
    ensures r.n == n && r.k == 0 && r.progress == progress && r.status == status
    ensures r.content == "" && r.msgLog == [] && r.kernel == kernel
    ensures r.text == Line(n, progress, 0, "") && r.lastLength == |r.text|
    ensures Valid(r)
  {
    var blank := ProgressBar(n, 0, "", progress, status, 0, "", [], kernel);
    Update(blank, 0, "")
  }

  /** What the output holds after a redraw: a carriage return, spaces over
      the previous line, another carriage return, then the new line. */
  predicate IsRedraw(content: string, text: string)
  {
    && |content| >= |text| + 2
    && content[0] == '\r'
    && content[|content| - |text| - 1] == '\r'
    && content[|content| - |text|..] == text
    && forall i :: 1 <= i < |content| - |text| - 1 ==> content[i] == ' '
  }

  /** The state every public operation keeps: a positive total, a step
      within it, a recorded length that matches the line, a line that begins
      with the bar of the current step, and output that is either empty
      (nothing drawn yet) or a redraw of that line. */
  predicate Valid(b: ProgressBar)
  {
    && b.n > 0
    && b.k <= b.n
    && b.lastLength == |b.text|
    && |b.text| > Width
    && b.text[..Width] == Bar(b.k, b.n)
    && b.text[Width] == ' '
    && (b.content == "" || IsRedraw(b.content, b.text))
  }

  /** `animate(k, status)`: a missing step means the last one, a missing
      status means the stored one; the output erases the previous line with
      as many spaces as it was long and then writes the new line. */
  function Animate(b: ProgressBar, k: Option<nat>, status: Option<string>): (r: ProgressBar)
    requires b.n > 0
    ensures r.k == (if k.Some? then k.value else b.n)
    ensures r.text == Line(b.n, b.progress, r.k, if status.Some? then status.value else b.status)
    ensures r.content == "\r" + Repeat(' ', b.lastLength) + "\r" + r.text
    ensures IsRedraw(r.content, r.text)
    ensures r.lastLength == |r.text|
    ensures r.n == b.n && r.progress == b.progress && r.status == b.status
    ensures r.msgLog == b.msgLog && r.kernel == b.kernel
    ensures r.k <= b.n ==> Valid(r)
  {
    var step: nat := if k.Some? then k.value else b.n;
    var st := if status.Some? then status.value else b.status;
    var erase := "\r" + Repeat(' ', b.lastLength);
    var u := Update(b.(content := erase), step, st);
    RedrawShape(b.lastLength, u.text);
    LineStart(b.n, b.progress, step, st);
    u.(content := erase + "\r" + u.text)
  }

  lemma RedrawShape(m: nat, text: string)
    ensures IsRedraw("\r" + Repeat(' ', m) + "\r" + text, text)
  {
    var c := "\r" + Repeat(' ', m) + "\r" + text;
    assert c[|c| - |text|..] == text;
    assert forall i :: 1 <= i < |c| - |text| - 1 ==> c[i] == Repeat(' ', m)[i - 1];
  }

  /** For a step within the total, a line starts with the `Width`-wide bar
      and a space. */
  lemma LineStart(n: int, progress: Template, k: nat, status: string)
    requires n > 0
    ensures k <= n ==> (
      && |Line(n, progress, k, status)| > Width
      && Line(n, progress, k, status)[..Width] == Bar(k, n)
      && Line(n, progress, k, status)[Width] == ' ')
  {
  }

  /** Rendering the same step with the same status again draws the same
      line, erasing exactly the line drawn before it. */
  lemma AnimateTwice(b: ProgressBar, k: Option<nat>, status: Option<string>)
    requires b.n > 0
    ensures var once := Animate(b, k, status);
      var twice := Animate(once, k, status);
      && twice.text == once.text
      && twice.content == "\r" + Repeat(' ', |once.text|) + "\r" + once.text
  {
  }

  /** The drawn line depends only on the total, the template, the step and
      the status, never on what was drawn before. */
  lemma AnimateIgnoresHistory(b1: ProgressBar, b2: ProgressBar, k: nat, status: string)
    requires b1.n > 0 && b1.n == b2.n && b1.progress == b2.progress
    ensures Animate(b1, Some(k), Some(status)).text == Animate(b2, Some(k), Some(status)).text
  {
  }

  /** `log(msg)`: appends the message at the end of the log; earlier
      messages and every other field are unchanged (the output is
      re-emitted as it stands, not re-rendered). */
  function Log(b: ProgressBar, msg: string): (r: ProgressBar)
    ensures |r.msgLog| == |b.msgLog| + 1
    ensures r.msgLog[..|b.msgLog|] == b.msgLog && r.msgLog[|b.msgLog|] == msg
    ensures r.(msgLog := b.msgLog) == b
    ensures Valid(b) ==> Valid(r)
  {
    b.(msgLog := b.msgLog + [msg])
  }

  /** Logging `a` and then `b` leaves exactly those two messages, in that
      order, after the earlier ones. */
  lemma LogInOrder(p: ProgressBar, a: string, b: string)
    ensures Log(Log(p, a), b).msgLog == p.msgLog + [a, b]
  {
  }

  /** `msg_log[:-1-n_log_print:-1]`: the notebook scrollback shows the
      newest messages first, at most `LogWindow` of them. */
  function Scrollback(log: seq<string>): (r: seq<string>)
    ensures |r| == Min(LogWindow, |log|)
    ensures forall i :: 0 <= i < |r| ==> r[i] == log[|log| - 1 - i]
  {
    ReverseSlice(log, -1 - LogWindow)
  }

  /** A new message heads the scrollback and pushes the others down one
      place, dropping the oldest once the window is full. */
  lemma ScrollbackAfterLog(log: seq<string>, msg: string)
    ensures Scrollback(log + [msg])[0] == msg
    ensures Scrollback(log + [msg])[1..] == Scrollback(log)[..Min(LogWindow - 1, |log|)]
  {
    WindowShift(log, msg, Scrollback(log), Scrollback(log + [msg]));
  }

  lemma WindowShift(log: seq<string>, msg: string, before: seq<string>, after: seq<string>)
    requires |before| == Min(LogWindow, |log|)
    requires forall i :: 0 <= i < |before| ==> before[i] == log[|log| - 1 - i]
    requires |after| == Min(LogWindow, |log| + 1)
    requires forall i :: 0 <= i < |after| ==> after[i] == (log + [msg])[|log| - i]
    ensures after[0] == msg
    ensures after[1..] == before[..Min(LogWindow - 1, |log|)]
  {
    assert (log + [msg])[|log|] == msg;
    var m := Min(LogWindow - 1, |log|);
    var tail := after[1..];
    var kept := before[..m];
    forall i | 0 <= i < m
      ensures tail[i] == kept[i]
    {
      assert tail[i] == after[i + 1] == (log + [msg])[|log| - 1 - i];
    }
  }

  /** The longest prefix of `s` made of digits. */
  function DigitPrefix(s: string): (r: string)
    ensures |r| <= |s| && r == s[..|r|] && Decimal.AllDigits(r)
    ensures |r| < |s| ==> !Decimal.IsDigit(s[|r|])
  {
    if |s| == 0 || !Decimal.IsDigit(s[0]) then "" else [s[0]] + DigitPrefix(s[1..])
  }

  /** The percentage shown in a rendered line: the number at `Offset`,
      which must be followed by `%`. */
  function ReadPercent(line: string): Option<nat>
  {
    if |line| < Offset then None
    else
      var ds := DigitPrefix(line[Offset..]);
      if |ds| == 0 || |line| <= Offset + |ds| || line[Offset + |ds|] != '%' then None
      else Some(Decimal.ToNat(ds))
  }

  /** The digits of a numeral are read up to the first non-digit. */
  lemma {:induction false} DigitPrefixOfNumber(d: string, rest: string)
    requires Decimal.AllDigits(d)
    requires |rest| > 0 && !Decimal.IsDigit(rest[0])
    ensures DigitPrefix(d + rest) == d
    decreases |d|
  {
    if |d| > 0 {
      assert (d + rest)[0] == d[0];
      assert (d + rest)[1..] == d[1..] + rest;
      DigitPrefixOfNumber(d[1..], rest);
    }
  }

  /** A line carrying a numeral followed by `%` at `Offset` shows that
      numeral's value. */
  lemma ReadPercentAt(line: string, d: string)
    requires |d| > 0 && Decimal.AllDigits(d)
    requires Offset + |d| < |line| && line[Offset..Offset + |d|] == d && line[Offset + |d|] == '%'
    ensures ReadPercent(line) == Some(Decimal.ToNat(d))
  {
    var rest := line[Offset + |d|..];
    assert line[Offset..] == d + rest;
    DigitPrefixOfNumber(d, rest);
  }

  lemma ReadPercentThroughBar(line: string, bar: string, pct: string)
    requires |bar| <= |line| && line[..|bar|] == bar
    requires Offset + |pct| <= |bar| && bar[Offset..Offset + |pct|] == pct
    requires 2 <= |pct| && pct[|pct| - 1] == '%' && Decimal.AllDigits(pct[..|pct| - 1])
    ensures ReadPercent(line) == Some(Decimal.ToNat(pct[..|pct| - 1]))
  {
    var d := pct[..|pct| - 1];
    assert line[Offset..Offset + |pct|] == pct;
    assert line[Offset..Offset + |d|] == d;
    assert line[Offset + |d|] == pct[|d|];
    ReadPercentAt(line, d);
  }

  /** Reading the percentage back out of any rendered line gives
      `floor(k*100/n)`, whatever the step, label or status. */
  lemma {:induction false} ReadPercentOfLine(n: int, progress: Template, k: nat, status: string)
    requires n > 0
    ensures ReadPercent(Line(n, progress, k, status)) == Some(Percent(k, n))
  {
    var line := Line(n, progress, k, status);
    var bar := Bar(k, n);
    var pct := PercentText(Percent(k, n));
    ReadPercentThroughBar(line, bar, pct);
  }

  /** With the label `{k}/{n}`, a total of 4 and step 2, the line shows
      `2/4` right after the bar. */
  lemma SlashLabel(status: string)
    ensures Line(4, [StepField, Lit("/"), TotalField], 2, status)[Width + 1..Width + 4] == "2/4"
  {
    var t: Template := [StepField, Lit("/"), TotalField];
    assert Decimal.FromNat(2) == "2" && Decimal.FromNat(4) == "4";
    assert Format(t, 2, 4) == "2/4";
  }
}
