/** Writing a string symbol to the configuration and reading it back
    (at91bootstrap/config/confdata.c:129-151, 224-268, 423-443). */
module ConfString {
  import opened Wrappers

  const NUL := '\0'
  /** `sizeof (line)` */
  const LINE := 1024

  predicate Special(c: char) {
    c == '"' || c == '\\'
  }

  // ----- what is written, and what it means -----

  function Escape(s: string): string {
    if s == "" then "" else (if Special(s[0]) then ['\\', s[0]] else [s[0]]) + Escape(s[1..])
  }

  function Prepend(s: string, o: Option<string>): Option<string> {
    if o.None? then None else Some(s + o.value)
  }

  /** The text up to the first quote that is not escaped, less the escapes; nothing without such a
      quote. */
  function Unescaped(s: string): Option<string> {
    if s == "" then None
    else if s[0] == '"' then Some("")
    else if s[0] != '\\' then Prepend(s[..1], Unescaped(s[1..]))
    else if |s| == 1 then None
    else Prepend(s[1..2], Unescaped(s[2..]))
  }

  lemma {:induction false} UnescapeUndoesEscape(s: string, rest: string)
    ensures Unescaped(Escape(s) + ['"'] + rest) == Some(s)
  {
    if s == "" {
      assert Escape(s) + ['"'] + rest == ['"'] + rest;
    } else {
      UnescapeUndoesEscape(s[1..], rest);
      var tail := Escape(s[1..]) + ['"'] + rest;
      var all := Escape(s) + ['"'] + rest;
      if Special(s[0]) {
        assert all == ['\\', s[0]] + tail;
        assert all[2..] == tail && all[1..2] == [s[0]];
      } else {
        assert all == [s[0]] + tail;
        assert all[1..] == tail && all[..1] == [s[0]];
      }
      assert s == [s[0]] + s[1..];
    }
  }

  /** Cut short, the text has no closing quote. */
  lemma {:induction false} CutHasNoEnd(s: string, n: nat)
    requires n <= |Escape(s)|
    ensures Unescaped(Escape(s)[..n]) == None
  {
    if s != "" && n > 0 {
      var e, tail := Escape(s), Escape(s[1..]);
      if !Special(s[0]) {
        CutHasNoEnd(s[1..], n - 1);
        assert e == [s[0]] + tail;
        assert e[..n] == [s[0]] + tail[..n - 1];
      } else if n == 1 {
        assert e[..n] == ['\\'];
      } else {
        CutHasNoEnd(s[1..], n - 2);
        assert e == ['\\', s[0]] + tail;
        assert e[..n] == ['\\', s[0]] + tail[..n - 2];
        assert e[..n][2..] == tail[..n - 2];
      }
    }
  }

  lemma {:induction false} EscapeAddsNoLines(s: string, c: char)
    requires !Special(c)
    ensures c in Escape(s) <==> c in s
  {
    if s != "" {
      EscapeAddsNoLines(s[1..], c);
      assert s == [s[0]] + s[1..];
    }
  }

  // ----- lines -----

  /** The position of the first `c`, or the length. */
  function Find(s: string, c: char): (n: nat)
    ensures n <= |s| && (n < |s| ==> s[n] == c) && c !in s[..n]
  {
    if s == "" || s[0] == c then 0
    else
      var n := Find(s[1..], c);
      assert s[..n + 1] == [s[0]] + s[1..][..n];
      n + 1
  }

  /** `fgets`: up to the end of the line, or as much as fits. */
  function FirstLine(file: string): string {
    var n := Find(file, '\n');
    if n < LINE - 1 then (if n < |file| then file[..n + 1] else file) else file[..LINE - 1]
  }

  /** The line less its end, which may be `\r\n`. */
  function CutEnd(value: string): string {
    var n := Find(value, '\n');
    if n < |value| && n > 0 && value[n - 1] == '\r' then value[..n - 1] else value[..n]
  }

  datatype Assignment = Assignment(name: string, value: string)

  /** What a `CONFIG_` line assigns to a string symbol. */
  function ReadLine(line: string): Option<Assignment> {
    if |line| < 7 || line[..7] != "CONFIG_" then None
    else
      var n := Find(line[7..], '=');
      if 7 + n == |line| then None
      else
        Assigned(line[7..7 + n], CutEnd(line[8 + n..]))
  }

  /** `conf_set_sym_val` for a string symbol. */
  function Assigned(name: string, value: string): Option<Assignment> {
    if value == "" || value[0] != '"' then None
    else
      var text := Unescaped(value[1..]);
      if text.None? then None else Some(Assignment(name, text.value))
  }

  function Head(name: string): string {
    "CONFIG_" + name + "="
  }

  function Quoted(s: string): string {
    ['"'] + (Escape(s) + ['"'])
  }

  function Line(name: string, s: string): string {
    Head(name) + (Quoted(s) + ['\n'])
  }

  /** Everything but the end of the line has to fit. */
  predicate Fits(name: string, s: string) {
    |Line(name, s)| - 1 < LINE
  }

  /** Symbol names. */
  predicate IsName(name: string) {
    '=' !in name && '\n' !in name
  }

  lemma {:induction false} FindIs(s: string, c: char, n: nat)
    requires n <= |s| && c !in s[..n] && (n < |s| ==> s[n] == c)
    ensures Find(s, c) == n
  {
    if n > 0 {
      assert s[..n][0] == s[0];
      assert s[1..][..n - 1] == s[..n][1..];
      FindIs(s[1..], c, n - 1);
    }
  }

  /** The beginning of a line up to the equals sign, and any value. */
  lemma ReadsValue(name: string, value: string)
    requires IsName(name)
    ensures ReadLine(Head(name) + value) == Assigned(name, CutEnd(value))
  {
    var line := Head(name) + value;
    assert line[..7] == "CONFIG_";
    assert line[7..] == name + ("=" + value);
    assert line[7..][..|name|] == name;
    FindIs(line[7..], '=', |name|);
    assert line[8 + |name|..] == value;
    assert line[7..7 + |name|] == name;
  }

  lemma NoEqualsReadsNothing(line: string)
    requires |line| >= 7 ==> '=' !in line[7..]
    ensures ReadLine(line) == None
  {
    if |line| >= 7 {
      assert line[7..][..|line| - 7] == line[7..];
      FindIs(line[7..], '=', |line| - 7);
    }
  }

  lemma CutEndIs(v: string, end: string)
    requires '\n' !in v && end in {"", "\n"}
    ensures CutEnd(v + end) == if end != "" && v != "" && v[|v| - 1] == '\r' then v[..|v| - 1] else v
  {
    var w := v + end;
    assert w[..|v|] == v;
    FindIs(w, '\n', |v|);
    assert v != "" ==> w[..|v| - 1] == v[..|v| - 1];
  }

  lemma QuotedHasNoLines(s: string)
    ensures '\n' in Quoted(s) <==> '\n' in s
  {
    EscapeAddsNoLines(s, '\n');
  }

  /** A whole line is read back. */
  lemma WholeLineReads(name: string, s: string, end: string)
    requires IsName(name) && '\n' !in s && end in {"", "\n"}
    ensures ReadLine(Head(name) + (Quoted(s) + end)) == Some(Assignment(name, s))
  {
    ReadsValue(name, Quoted(s) + end);
    QuotedHasNoLines(s);
    CutEndIs(Quoted(s), end);
    UnescapeUndoesEscape(s, "");
    assert Quoted(s)[1..] == Escape(s) + ['"'] + "";
  }

  /** A quoted string that has lost its end assigns nothing. */
  lemma CutQuoteAssignsNothing(name: string, s: string, v: string)
    requires v <= Quoted(s) && v != Quoted(s)
    ensures Assigned(name, v) == None
  {
    if v != "" {
      var n := |v| - 1;
      assert v[1..] == Escape(s)[..n];
      CutHasNoEnd(s, n);
    }
  }

  lemma CutHeadHasNoEquals(name: string, k: nat, end: string)
    requires IsName(name) && k < |Head(name)| && end in {"", "\n"}
    ensures var l := Head(name)[..k] + end; |l| >= 7 ==> '=' !in l[7..]
  {
    var l := Head(name)[..k] + end;
    forall i | 7 <= i < |l|
      ensures l[i] != '='
    {
      if i < k {
        assert l[i] == name[i - 7];
      }
    }
  }

  /** What is left of a line that has lost its closing quote assigns nothing. */
  lemma CutLineReadsNothing(name: string, s: string, k: nat, end: string)
    requires IsName(name) && k < |Head(name) + Quoted(s)| && end in {"", "\n"}
    requires '\n' !in (Head(name) + Quoted(s))[..k]
    ensures ReadLine((Head(name) + Quoted(s))[..k] + end) == None
  {
    var line := Head(name) + Quoted(s);
    var h := |Head(name)|;
    if k < h {
      assert line[..k] == Head(name)[..k];
      CutHeadHasNoEquals(name, k, end);
      NoEqualsReadsNothing(line[..k] + end);
    } else {
      var v := Quoted(s)[..k - h];
      assert line[..k] == Head(name) + v;
      assert line[..k] + end == Head(name) + (v + end);
      ReadsValue(name, v + end);
      CutEndIs(v, end);
      CutQuoteAssignsNothing(name, s, CutEnd(v + end));
    }
  }

  /** The round trip works exactly for strings without a line end whose line fits. */
  lemma RoundTripExactlyWhen(name: string, s: string, rest: string)
    requires IsName(name)
    ensures ReadLine(FirstLine(Line(name, s) + rest)) == Some(Assignment(name, s)) <==> '\n' !in s && Fits(name, s)
  {
    if '\n' !in s {
      UnbrokenLine(name, s, rest);
      if Fits(name, s) {
        WholeLineReads(name, s, if |Line(name, s)| < LINE then "\n" else "");
      } else {
        CutLineReadsNothing(name, s, LINE - 1, "");
      }
    } else {
      BrokenLine(name, s, rest);
    }
  }

  lemma UnbrokenLine(name: string, s: string, rest: string)
    requires IsName(name) && '\n' !in s
    ensures var text := Head(name) + Quoted(s);
      '\n' !in text && |Line(name, s)| == |text| + 1 &&
      FirstLine(Line(name, s) + rest) ==
        if |text| < LINE - 1 then Head(name) + (Quoted(s) + "\n")
        else if |text| == LINE - 1 then Head(name) + (Quoted(s) + "")
        else text[..LINE - 1] + ""
  {
    var text := Head(name) + Quoted(s);
    var file := Line(name, s) + rest;
    QuotedHasNoLines(s);
    assert file == text + (['\n'] + rest);
    FirstOf(text, rest);
  }

  lemma FirstOf(text: string, rest: string)
    requires '\n' !in text
    ensures FirstLine(text + (['\n'] + rest)) == if |text| < LINE - 1 then text + "\n" else text[..LINE - 1]
  {
    var file := text + (['\n'] + rest);
    assert file[..|text|] == text;
    FindIs(file, '\n', |text|);
    assert file[..|text| + 1] == text + "\n";
    assert |text| >= LINE - 1 ==> file[..LINE - 1] == text[..LINE - 1];
  }

  /** With a line end in the string, the first line stops there. */
  lemma BrokenLine(name: string, s: string, rest: string)
    requires IsName(name) && '\n' in s
    ensures ReadLine(FirstLine(Line(name, s) + rest)) == None
  {
    var text := Head(name) + Quoted(s);
    QuotedHasNoLines(s);
    var n := Find(text, '\n');
    FoundIfThere(text, '\n');
    BreakAt(Head(name), Quoted(s), rest, n);
    FirstOf(text[..n], text[n + 1..] + (['\n'] + rest));
    if n < LINE - 1 {
      CutLineReadsNothing(name, s, n, "\n");
    } else {
      assert text[..n][..LINE - 1] == text[..LINE - 1] + "";
      CutLineReadsNothing(name, s, LINE - 1, "");
    }
  }

  lemma BreakAt(h: string, q: string, rest: string, n: nat)
    requires n < |h + q| && (h + q)[n] == '\n'
    ensures var text := h + q;
      h + (q + ['\n']) + rest == text[..n] + (['\n'] + (text[n + 1..] + (['\n'] + rest)))
  {
    var text := h + q;
    assert text == text[..n] + (['\n'] + text[n + 1..]);
    assert h + (q + ['\n']) + rest == text + (['\n'] + rest);
  }

  lemma {:induction false} FoundIfThere(s: string, c: char)
    requires c in s
    ensures Find(s, c) < |s|
  {
    if s[0] != c {
      assert s == [s[0]] + s[1..];
      FoundIfThere(s[1..], c);
    }
  }

  // ----- the functions as they run -----

  /** `strcspn(s, "\"\\")`: how many characters come before the first special one. */
  method Plain(s: string, from: nat) returns (l: nat)
    requires from <= |s|
    ensures from + l <= |s| && (from + l < |s| ==> Special(s[from + l]))
    ensures forall k | from <= k < from + l :: !Special(s[k])
  {
    l := 0;
    while from + l < |s| && !Special(s[from + l])
      invariant from + l <= |s| && forall k | from <= k < from + l :: !Special(s[k])
    {
      l := l + 1;
    }
  }

  lemma {:induction false} EscapePlain(s: string, l: nat)
    requires l <= |s| && forall k | 0 <= k < l :: !Special(s[k])
    ensures Escape(s) == s[..l] + Escape(s[l..])
  {
    if l == 0 {
      assert s[0..] == s;
    } else {
      EscapePlain(s[1..], l - 1);
      assert s[1..][l - 1..] == s[l..];
      assert s[..l] == [s[0]] + s[1..][..l - 1];
    }
  }

  /** `goal` is what will have been written in the end, with `str` written up to `at`. */
  ghost predicate Writing(goal: string, out: string, str: string, at: nat) {
    at <= |str| && goal == out + Escape(str[at..])
  }

  lemma WritePlain(goal: string, out: string, str: string, at: nat, l: nat)
    requires Writing(goal, out, str, at) && at + l <= |str| && forall k | at <= k < at + l :: !Special(str[k])
    ensures Writing(goal, out + str[at..at + l], str, at + l)
  {
    EscapePlain(str[at..], l);
    assert str[at..][l..] == str[at + l..] && str[at..][..l] == str[at..at + l];
  }

  lemma WriteSpecial(goal: string, out: string, str: string, at: nat)
    requires Writing(goal, out, str, at) && at < |str| && Special(str[at])
    ensures Writing(goal, out + ['\\', str[at]], str, at + 1)
  {
    assert str[at..][1..] == str[at + 1..];
  }

  /** `conf_write_string` to the configuration file. */
  method WriteString(name: string, str: string) returns (out: string)
    ensures out == Line(name, str)
  {
    out := WriteEscaped(Head(name) + ['"'], str);
    assert Line(name, str) == Head(name) + ['"'] + Escape(str) + ['"', '\n'];
    out := out + ['"', '\n'];
  }

  method WriteEscaped(start: string, str: string) returns (out: string)
    ensures out == start + Escape(str)
  {
    out := start;
    var at := 0;
    assert str[0..] == str;
    while true
      invariant Writing(start + Escape(str), out, str, at)
      decreases |str| - at
    {
      var l := Plain(str, at);
      WritePlain(start + Escape(str), out, str, at, l);
      out, at := out + str[at..at + l], at + l;
      if at == |str| { break; }
      WriteSpecial(start + Escape(str), out, str, at);
      out, at := out + ['\\', str[at]], at + 1;
    }
    assert str[at..] == "";
  }

  /** The C string at `p`, which ends before the terminator at `end`. */
  predicate Terminated(line: seq<char>, p: nat, end: nat) {
    p <= end < |line| && line[end] == NUL && forall k | p <= k < end :: line[k] != NUL
  }

  /** `memmove(p2, p2 + 1, n)` */
  method MoveLeft(line: array<char>, to: nat, n: nat)
    requires to + 1 + n <= line.Length
    modifies line
    ensures forall k | 0 <= k < line.Length :: line[k] == if to <= k < to + n then old(line[k + 1]) else old(line[k])
  {
    for k := 0 to n
      invariant forall j | 0 <= j < line.Length ::
        line[j] == if to <= j < to + k then old(line[j + 1]) else old(line[j])
    {
      line[to + k] := line[to + k + 1];
    }
  }

  /** `strpbrk(p2, "\"\\")`, or the terminator. */
  method NextSpecial(line: array<char>, from: nat, ghost end: nat) returns (at: nat)
    requires Terminated(line[..], from, end)
    ensures from <= at <= end && (at < end ==> Special(line[at]))
    ensures forall k | from <= k < at :: !Special(line[k])
  {
    at := from;
    while line[at] != NUL && !Special(line[at])
      invariant from <= at <= end && forall k | from <= k < at :: !Special(line[k])
      decreases end - at
    {
      assert line[at] != NUL;
      at := at + 1;
    }
  }

  lemma PrependTwice(a: string, b: string, o: Option<string>)
    ensures Prepend(a, Prepend(b, o)) == Prepend(a + b, o)
  {
    if o.Some? {
      assert a + (b + o.value) == a + b + o.value;
    }
  }

  lemma {:induction false} UnescapePlain(s: string, l: nat)
    requires l <= |s| && forall k | 0 <= k < l :: !Special(s[k])
    ensures Unescaped(s) == Prepend(s[..l], Unescaped(s[l..]))
  {
    if l == 0 {
      assert s[0..] == s && s[..0] == "";
      assert Unescaped(s).Some? ==> "" + Unescaped(s).value == Unescaped(s).value;
    } else {
      UnescapePlain(s[1..], l - 1);
      assert s[1..][l - 1..] == s[l..];
      assert s[..l] == s[..1] + s[1..][..l - 1];
      PrependTwice(s[..1], s[1..][..l - 1], Unescaped(s[l..]));
    }
  }

  /** `goal` is the outcome, with the text before `p2` done and that up to `end` to go. */
  ghost predicate Progress(goal: Option<string>, line: seq<char>, p: nat, p2: nat, end: nat) {
    p <= p2 && Terminated(line, p2, end) && (p2 < end ==> forall k | p <= k < p2 :: line[k] != NUL) &&
    goal == Prepend(line[p..p2], Unescaped(line[p2..end]))
  }

  lemma ProgressPlain(goal: Option<string>, line: seq<char>, p: nat, p2: nat, at: nat, end: nat)
    requires Progress(goal, line, p, p2, end) && p2 <= at <= end && forall k | p2 <= k < at :: !Special(line[k])
    ensures Progress(goal, line, p, at, end)
  {
    var rest := line[p2..end];
    UnescapePlain(rest, at - p2);
    assert rest[..at - p2] == line[p2..at] && rest[at - p2..] == line[at..end];
    PrependTwice(line[p..p2], line[p2..at], Unescaped(line[at..end]));
    assert line[p..at] == line[p..p2] + line[p2..at];
  }

  /** The backslash at `at` has been squeezed out. */
  lemma ProgressEscape(goal: Option<string>, was: seq<char>, now: seq<char>, p: nat, at: nat, end: nat)
    requires Progress(goal, was, p, at, end) && at < end && was[at] == '\\' && |now| == |was|
    requires forall k {:trigger now[k]} | 0 <= k < |was| :: now[k] == if at <= k < end then was[k + 1] else was[k]
    ensures Progress(goal, now, p, at + 1, if at + 1 < end then end - 1 else end)
  {
    var rest := was[at..end];
    if at + 1 < end {
      assert rest[1] == was[at + 1] == now[at];
      assert rest[1..2] == [now[at]];
      assert rest[2..] == was[at + 2..end] == now[at + 1..end - 1];
      assert now[p..at] == was[p..at];
      PrependTwice(now[p..at], [now[at]], Unescaped(now[at + 1..end - 1]));
      assert now[p..at + 1] == now[p..at] + [now[at]];
    } else {
      assert rest == ['\\'];
      assert now[at + 1..end] == "";
    }
  }

  lemma ProgressQuote(goal: Option<string>, was: seq<char>, now: seq<char>, p: nat, at: nat, end: nat)
    requires Progress(goal, was, p, at, end) && at < end && was[at] == '"' && now == was[at := NUL]
    ensures goal == Some(now[p..at]) && Terminated(now, p, at)
  {
    assert was[at..end][0] == '"';
    assert now[p..at] == was[p..at];
    assert now[p..at] + "" == now[p..at];
  }

  /** The unescape in place: `p` is behind the opening quote. On success the C string at `p` is the
      value. */
  method Unescape(line: array<char>, p: nat, ghost last: nat) returns (ok: bool, ghost end: nat)
    requires Terminated(line[..], p, last)
    modifies line
    ensures ok <==> Unescaped(old(line[p..last])).Some?
    ensures ok ==> Terminated(line[..], p, end) && Some(line[p..end]) == Unescaped(old(line[p..last]))
  {
    ghost var goal := Unescaped(line[p..last]);
    end := last;
    var p2 := p;
    assert line[..][p..last] == line[p..last] && line[..][p..p] == "";
    assert goal.Some? ==> "" + goal.value == goal.value;
    while true
      invariant Progress(goal, line[..], p, p2, end)
      decreases end - p2, last - p2
    {
      var at := NextSpecial(line, p2, end);
      ProgressPlain(goal, line[..], p, p2, at, end);
      ghost var was := line[..];
      if line[at] == NUL {
        return false, end;
      } else if line[at] == '"' {
        line[at] := NUL;
        ProgressQuote(goal, was, line[..], p, at, end);
        return true, at;
      }
      DropBackslash(line, p, at, end, goal);
      end := if at + 1 < end then end - 1 else end;
      p2 := at + 1;
    }
  }

  method DropBackslash(line: array<char>, ghost p: nat, at: nat, ghost end: nat, ghost goal: Option<string>)
    requires Progress(goal, line[..], p, at, end) && at < end && line[at] == '\\'
    modifies line
    ensures Progress(goal, line[..], p, at + 1, if at + 1 < end then end - 1 else end)
  {
    ghost var was := line[..];
    var n := StringLength(line, at, end);
    MoveLeft(line, at, n);
    ProgressEscape(goal, was, line[..], p, at, end);
  }

  method StringLength(line: array<char>, from: nat, ghost end: nat) returns (n: nat)
    requires Terminated(line[..], from, end)
    ensures from + n == end
  {
    n := 0;
    while line[from + n] != NUL
      invariant from + n <= end
      decreases end - from - n
    {
      n := n + 1;
    }
  }
}
