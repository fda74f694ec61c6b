// The text of a log line, and how the emergency path finds the message in it
// again.
module LogFormat {

  datatype Level = DEV | INFO | WARN | ERR

  /** One call of Log: its message, its level, the calling thread and the digits
      of the clock. The line of the constructor starts without a line break. */
  datatype Record = Record(hour: string, minute: string, second: string, threadId: nat,
                           level: Level, message: string, first: bool)

  /** The clock's fields hold no colon. */
  ghost predicate ValidRecord(r: Record) {
    ':' !in r.hour && ':' !in r.minute && ':' !in r.second
  }

  function Repeat(c: char, n: nat): (s: string)
    ensures |s| == n && forall d <- s :: d == c
  {
    seq(n, _ => c)
  }

  function Tabs(threadId: nat): string {
    if threadId > 1 then Repeat('\t', threadId - 1) else " "
  }

  function LevelName(level: Level): string {
    match level
    case DEV => "Debug"
    case INFO => "Info"
    case WARN => "Warning"
    case ERR => "ERROR"
  }

  function LevelAndMessage(r: Record): string {
    Tabs(r.threadId) + LevelName(r.level) + ":" + (" " + r.message)
  }

  /** The clock in brackets, a colon, the tabs of the thread, the level and the
      message: [hh:mm:ss]:<tabs>Level: message */
  function FormatLogMessage(r: Record): string {
    "[" + r.hour + ":" + (r.minute + ":" + (r.second + "]" + ":" + LevelAndMessage(r)))
  }

  /** The text that is queued. */
  function Line(r: Record): (s: string)
    ensures s != []
  {
    (if r.first then "" else "\n") + FormatLogMessage(r)
  }

  // Finding the message again

  /** The index of the (skip + 1)-th occurrence of c, or -1. */
  function NthIndex(s: string, c: char, skip: nat): (i: int)
    ensures -1 <= i < |s|
    ensures i >= 0 ==> s[i] == c
  {
    if s == "" then -1
    else
      var rest := if s[0] == c && skip > 0 then NthIndex(s[1..], c, skip - 1) else NthIndex(s[1..], c, skip);
      if s[0] == c && skip == 0 then 0
      else if rest == -1 then -1 else rest + 1
  }

  method IndexOfByte(s: string, c: char, skip: nat) returns (i: int)
    ensures i == NthIndex(s, c, skip)
  {
    var left := skip;
    i := 0;
    while i < |s|
      invariant 0 <= i <= |s|
      invariant NthIndex(s, c, skip) == var rest := NthIndex(s[i..], c, left); if rest == -1 then -1 else rest + i
    {
      assert s[i..][1..] == s[i + 1..];
      if s[i] == c {
        if left == 0 {
          return i;
        }
        left := left - 1;
      }
      i := i + 1;
    }
    return -1;
  }

  /** What LogShutdownForEntry hands to the emergency logger: the line behind its
      fourth colon. */
  function Stripped(line: string): string {
    line[NthIndex(line, ':', 3) + 1..]
  }

  lemma {:induction false} NoColon(a: string, b: string, skip: nat)
    requires ':' !in a
    ensures NthIndex(a + b, ':', skip) == if NthIndex(b, ':', skip) == -1 then -1 else |a| + NthIndex(b, ':', skip)
  {
    if a == "" {
      assert a + b == b;
    } else {
      assert (a + b)[1..] == a[1..] + b && (a + b)[0] == a[0];
      NoColon(a[1..], b, skip);
    }
  }

  /** One field up to and including its colon. */
  lemma PastColon(a: string, b: string, skip: nat)
    requires ':' !in a
    ensures NthIndex(a + ":" + b, ':', 0) == |a|
    ensures NthIndex(a + ":" + b, ':', skip + 1) ==
            if NthIndex(b, ':', skip) == -1 then -1 else |a| + 1 + NthIndex(b, ':', skip)
  {
    assert a + ":" + b == a + (":" + b);
    NoColon(a, ":" + b, 0);
    NoColon(a, ":" + b, skip + 1);
    assert (":" + b)[1..] == b;
  }

  lemma FourColons(p: string, q: string, r: string, t: string, rest: string)
    requires ':' !in p && ':' !in q && ':' !in r && ':' !in t
    ensures NthIndex(p + ":" + (q + ":" + (r + ":" + (t + ":" + rest))), ':', 3) == |p| + |q| + |r| + |t| + 3
  {
    hide NthIndex;
    var fourth := t + ":" + rest;
    var third := r + ":" + fourth;
    var second := q + ":" + third;
    PastColon(t, rest, 0);
    PastColon(r, fourth, 0);
    PastColon(q, third, 1);
    PastColon(p, second, 2);
  }

  lemma EndOf(p: string, q: string, r: string, t: string, rest: string)
    ensures (p + ":" + (q + ":" + (r + ":" + (t + ":" + rest))))[|p| + |q| + |r| + |t| + 4..] == rest
  {
  }

  /** A line up to its first colon, and its level with the tabs. */
  lemma LineParts(r: Record) returns (p: string, t: string)
    requires ValidRecord(r)
    ensures ':' !in p && ':' !in t && t == Tabs(r.threadId) + LevelName(r.level)
    ensures Line(r) == p + ":" + (r.minute + ":" + (r.second + "]" + ":" + (t + ":" + (" " + r.message))))
  {
    p, t := (if r.first then "" else "\n") + "[" + r.hour, Tabs(r.threadId) + LevelName(r.level);
    assert ':' !in LevelName(r.level);
    assert Line(r) == p + ":" + (r.minute + ":" + (r.second + "]" + ":" + LevelAndMessage(r)));
  }

  /** The fourth colon of a line is the one that ends the level, whatever the
      message holds, so the emergency logger gets a blank and the message. */
  lemma StrippedLine(r: Record)
    requires ValidRecord(r)
    ensures 0 < NthIndex(Line(r), ':', 3) + 1 < |Line(r)|
    ensures Stripped(Line(r)) == " " + r.message
  {
    hide Line, Tabs, LevelName, NthIndex;
    var p, t := LineParts(r);
    FourColons(p, r.minute, r.second + "]", t, " " + r.message);
    EndOf(p, r.minute, r.second + "]", t, " " + r.message);
  }

  lemma Regroup(n: string, h: string, m: string, s: string, t: string, name: string, level: string, text: string)
    requires level == name + ":" + " "
    ensures n + ("[" + h + ":" + (m + ":" + (s + "]" + ":" + (t + name + ":" + (" " + text))))) ==
            n + "[" + h + ":" + m + ":" + s + "]:" + t + level + text
  {
  }

  /** The text of a line: a line break except for the first, the clock, a blank or
      one tab less than the number of the thread, the level, the message. */
  lemma LineText(r: Record)
    ensures Line(r) ==
            (if r.first then "" else "\n") + "[" + r.hour + ":" + r.minute + ":" + r.second + "]:"
            + (if r.threadId > 1 then seq(r.threadId - 1, _ => '\t') else " ")
            + (match r.level case DEV => "Debug: " case INFO => "Info: " case WARN => "Warning: " case ERR => "ERROR: ")
            + r.message
  {
    var tabs := if r.threadId > 1 then seq(r.threadId - 1, _ => '\t') else " ";
    assert Tabs(r.threadId) == tabs;
    var level := match r.level case DEV => "Debug: " case INFO => "Info: " case WARN => "Warning: " case ERR => "ERROR: ";
    assert LevelName(r.level) + ":" + " " == level;
    Regroup(if r.first then "" else "\n", r.hour, r.minute, r.second, tabs, LevelName(r.level), level, r.message);
  }

  lemma FieldBefore(p: string, q: string, r: string, t: string, rest: string)
    requires |t| >= 2
    ensures var s, i := p + ":" + (q + ":" + (r + ":" + (t + ":" + rest))), |p| + |q| + |r| + |t| + 3;
            i < |s| && s[i - 2..i] == t[|t| - 2..]
  {
  }

  lemma LevelTail(r: Record)
    ensures var t := Tabs(r.threadId) + LevelName(r.level);
            |t| >= 2 && t[|t| - 2..] == match r.level case DEV => "ug" case INFO => "fo" case WARN => "ng" case ERR => "OR"
  {
    var tabs, name := Tabs(r.threadId), LevelName(r.level);
    assert (tabs + name)[|tabs + name| - 2..] == name[|name| - 2..];
  }

  /** In front of the fourth colon stands the level. */
  lemma LevelInLine(r: Record)
    requires ValidRecord(r)
    ensures var i := NthIndex(Line(r), ':', 3);
            2 <= i && Line(r)[i - 2..i] == match r.level case DEV => "ug" case INFO => "fo" case WARN => "ng" case ERR => "OR"
  {
    hide Line, Tabs, LevelName, NthIndex;
    var p, t := LineParts(r);
    FourColons(p, r.minute, r.second + "]", t, " " + r.message);
    LevelTail(r);
    FieldBefore(p, r.minute, r.second + "]", t, " " + r.message);
  }

  /** A line determines its level and its message. */
  lemma LineDetermines(r: Record, s: Record)
    requires ValidRecord(r) && ValidRecord(s) && Line(r) == Line(s)
    ensures r.level == s.level && r.message == s.message
  {
    hide Line, NthIndex;
    LevelInLine(r);
    LevelInLine(s);
    StrippedLine(r);
    StrippedLine(s);
    assert (" " + r.message)[1..] == (" " + s.message)[1..];
  }
}
