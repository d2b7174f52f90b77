/** `stripComment` of src/config/loader.ts: where a trailing `#` comment of one config line begins. */
module Comment {
  import opened Text

  datatype Mode = Plain | Single | Double

  /** The scanner's flags: `armed` is true where a new scalar may begin, so a quote would open it. */
  datatype Lexer = Lexer(mode: Mode, armed: bool, depth: nat)

  const VALUE_START := Lexer(Plain, true, 0)

  /** How much of the text stands before its first `#` that opens a comment, paying no heed to quotes. */
  function KeptPlain(r: string, afterSpace: bool): (n: nat)
    ensures n <= |r|
  {
    if r == "" || (r[0] == '#' && afterSpace) then 0 else 1 + KeptPlain(r[1..], IsSpace(r[0]))
  }

  /** One turn of the value scanner: stop at a comment, or move on by one or two characters. */
  datatype Turn = Stop | Move(n: nat, afterSpace: bool, st: Lexer)

  function TakeTurn(ch: char, next: string, afterSpace: bool, st: Lexer): (t: Turn)
    ensures t.Move? ==> 1 <= t.n <= 2 && (t.n == 2 ==> next != "")
  {
    match st.mode
    case Single =>
      if ch != '\'' then Move(1, IsSpace(ch), st)
      else if StartsWith(next, '\'') then Move(2, false, st)
      else Move(1, false, Lexer(Plain, false, st.depth))
    case Double =>
      if ch == '\\' && next != "" then Move(2, IsSpace(next[0]), st)
      else if ch == '\"' then Move(1, false, Lexer(Plain, false, st.depth))
      else Move(1, IsSpace(ch), st)
    case Plain =>
      if IsSpace(ch) then Move(1, true, st)
      else if st.armed && ch == '\'' then Move(1, false, st.(mode := Single))
      else if st.armed && ch == '\"' then Move(1, false, st.(mode := Double))
      else if ch == '#' && afterSpace then Stop
      else if ch == '[' then Move(1, false, Lexer(Plain, true, st.depth + 1))
      else if ch == ']' then Move(1, false, Lexer(Plain, false, if st.depth > 0 then st.depth - 1 else 0))
      else if ch == ',' && st.depth > 0 then Move(1, false, st.(armed := true))
      else Move(1, false, st.(armed := false))
  }

  /** How much of the value text stands before its comment, scanning from a given state. */
  function KeptValue(r: string, afterSpace: bool, st: Lexer): (n: nat)
    ensures n <= |r|
    decreases |r|
  {
    if r == "" then 0
    else
      match TakeTurn(r[0], r[1..], afterSpace, st)
      case Stop => 0
      case Move(n, afterSpace', st') => n + KeptValue(r[n..], afterSpace', st')
  }

  /** The line up to its comment: the key part is read without quotes, the value part with them. */
  function WithoutComment(line: string): (kept: string)
    ensures kept <= line
  {
    var colon := IndexOf(line, ':');
    var head := if colon == -1 then line else line[..colon + 1];
    var k := KeptPlain(head, true);
    if k < |head| then line[..k]
    else if colon == -1 then line
    else line[..colon + 1 + KeptValue(line[colon + 1..], false, VALUE_START)]
  }

  /** A `#` in the key part of the line that opens a comment. */
  predicate HashAt(line: string, i: nat)
    requires i < |line|
  {
    line[i] == '#' && (i == 0 || IsSpace(line[i - 1]))
  }

  lemma {:induction false} KeptPlainStep(line: string, i: nat, n: nat)
    requires i < n <= |line|
    requires !HashAt(line, i)
    ensures KeptPlain(line[i..n], i == 0 || IsSpace(line[i - 1])) == 1 + KeptPlain(line[i + 1..n], IsSpace(line[i]))
  {
    assert line[i..n][1..] == line[i + 1..n];
  }

  /** The second loop: where the value part of the line stops. */
  method ScanValue(rawLine: string, valueStart: nat) returns (end: nat)
    requires 0 < valueStart <= |rawLine| && rawLine[valueStart - 1] == ':'
    ensures end == valueStart + KeptValue(rawLine[valueStart..], false, VALUE_START)
  {
    var i := valueStart;
    var atValueStart, inSingle, inDouble, bracketDepth: nat := true, false, false, 0;
    ghost var total := KeptValue(rawLine[valueStart..], false, VALUE_START);
    ghost var st, afterSpace := VALUE_START, false;
    while i < |rawLine|
      invariant valueStart <= i <= |rawLine|
      invariant !(inSingle && inDouble)
      invariant st == Lexer(if inSingle then Single else if inDouble then Double else Plain, atValueStart, bracketDepth)
      invariant st.mode == Plain ==> afterSpace == IsSpace(rawLine[i - 1])
      invariant valueStart + total == i + KeptValue(rawLine[i..], afterSpace, st)
      decreases |rawLine| - i
    {
      var ch := rawLine[i];
      ghost var at, turn := i, TakeTurn(ch, rawLine[i + 1..], afterSpace, st);
      assert rawLine[i..][0] == ch && rawLine[i..][1..] == rawLine[i + 1..];
      if inSingle {
        if ch == '\'' {
          if i + 1 < |rawLine| && rawLine[i + 1] == '\'' {
            i := i + 1;
          } else {
            inSingle := false;
            atValueStart := false;
          }
        }
      } else if inDouble {
        if ch == '\\' && i + 1 < |rawLine| {
          i := i + 1;
        } else if ch == '\"' {
          inDouble := false;
          atValueStart := false;
        }
      } else if IsSpace(ch) {
      } else if atValueStart && ch == '\'' {
        inSingle := true;
      } else if atValueStart && ch == '\"' {
        inDouble := true;
      } else if ch == '#' && (i == 0 || IsSpace(rawLine[i - 1])) {
        return i;
      } else if ch == '[' {
        bracketDepth := bracketDepth + 1;
        atValueStart := true;
      } else if ch == ']' {
        bracketDepth := if bracketDepth > 0 then bracketDepth - 1 else 0;
        atValueStart := false;
      } else if ch == ',' && bracketDepth > 0 {
        atValueStart := true;
      } else {
        atValueStart := false;
      }
      i := i + 1;
      assert turn.Move? && turn.n == i - at;
      assert rawLine[at..][turn.n..] == rawLine[i..];
      st, afterSpace := turn.st, turn.afterSpace;
    }
    return |rawLine|;
  }

  /** The whole scanner: first the key part, then the value part. */
  method StripComment(rawLine: string) returns (kept: string)
    ensures kept == WithoutComment(rawLine)
  {
    hide IsSpace, KeptValue, IndexOf;
    var colonIdx := IndexOf(rawLine, ':');
    var valueStart := if colonIdx == -1 then |rawLine| else colonIdx + 1;
    ghost var head := rawLine[..valueStart];
    assert head == if colonIdx == -1 then rawLine else rawLine[..colonIdx + 1];
    var i := 0;
    assert rawLine[0..valueStart] == head;
    while i < valueStart
      invariant 0 <= i <= valueStart
      invariant KeptPlain(head, true) == i + KeptPlain(rawLine[i..valueStart], i == 0 || IsSpace(rawLine[i - 1]))
    {
      if rawLine[i] == '#' && (i == 0 || IsSpace(rawLine[i - 1])) {
        return rawLine[..i];
      }
      KeptPlainStep(rawLine, i, valueStart);
      i := i + 1;
    }
    if colonIdx == -1 { return rawLine; }
    var end := ScanValue(rawLine, valueStart);
    return rawLine[..end];
  }
}
