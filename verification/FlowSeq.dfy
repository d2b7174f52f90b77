/** `splitFlowSequenceEntries` of src/config/loader.ts: the entries between `[` and `]`. */
module FlowSeq {
  import opened Text

  datatype Mode = Plain | Single | Double

  /** What one character does: the entry ends at it, or it and perhaps the next one belong to the entry. */
  datatype Turn = Cut | Take(n: nat, mode: Mode, atStart: bool)

  /** `more`: another character follows; `quoteNext`: it is a single quote. */
  function TakeTurn(ch: char, more: bool, quoteNext: bool, mode: Mode, atStart: bool): (t: Turn)
    requires quoteNext ==> more
    ensures t.Take? ==> 1 <= t.n <= 2 && (t.n == 2 ==> more)
  {
    match mode
    case Single =>
      if ch != '\'' then Take(1, Single, atStart)
      else if quoteNext then Take(2, Single, atStart)
      else Take(1, Plain, false)
    case Double =>
      if ch == '\\' && more then Take(2, Double, atStart)
      else if ch == '\"' then Take(1, Plain, false)
      else Take(1, Double, atStart)
    case Plain =>
      if IsSpace(ch) then Take(1, Plain, atStart)
      else if atStart && ch == '\'' then Take(1, Single, atStart)
      else if atStart && ch == '\"' then Take(1, Double, atStart)
      else if ch == ',' then Cut
      else Take(1, Plain, false)
  }

  function TurnAt(inner: string, i: nat, mode: Mode, atStart: bool): (t: Turn)
    requires i < |inner|
    ensures t.Take? ==> 1 <= t.n <= |inner| - i
  {
    TakeTurn(inner[i], i + 1 < |inner|, i + 1 < |inner| && inner[i + 1] == '\'', mode, atStart)
  }

  /** How far the entry being read at `i` reaches: to its comma, or to the end of the text. */
  function EntryEnd(inner: string, i: nat, mode: Mode, atStart: bool): (end: nat)
    requires i <= |inner|
    ensures i <= end <= |inner|
    decreases |inner| - i
  {
    if i == |inner| then i
    else
      match TurnAt(inner, i, mode, atStart)
      case Cut => i
      case Take(n, mode', atStart') => EntryEnd(inner, i + n, mode', atStart')
  }

  /** The trimmed entries of the text from `start` on; a blank last entry is dropped. */
  function EntriesFrom(inner: string, start: nat): (entries: seq<string>)
    requires start <= |inner|
    decreases |inner| - start
  {
    var end := EntryEnd(inner, start, Plain, true);
    var entry := Trim(inner[start..end]);
    if end < |inner| then [entry] + EntriesFrom(inner, end + 1)
    else if entry != "" then [entry]
    else []
  }

  function Entries(inner: string): (r: seq<string>) {
    EntriesFrom(inner, 0)
  }

  predicate NoLonger(parts: seq<string>, n: nat) {
    forall i :: 0 <= i < |parts| ==> |parts[i]| <= n
  }

  /** No entry is longer than the text it was cut from. */
  lemma {:induction false} EntriesAreShort(inner: string, start: nat)
    requires start <= |inner|
    ensures NoLonger(EntriesFrom(inner, start), |inner|)
    decreases |inner| - start
  {
    var end := EntryEnd(inner, start, Plain, true);
    if end < |inner| {
      EntriesAreShort(inner, end + 1);
    }
  }

  /** The loop of the source from one entry's start to its comma. */
  method ReadEntry(inner: string, start: nat) returns (end: nat)
    requires start <= |inner|
    ensures end == EntryEnd(inner, start, Plain, true)
  {
    var inSingle, inDouble, atEntryStart := false, false, true;
    var i := start;
    ghost var mode := Plain;
    hide IsSpace;
    while i < |inner|
      invariant start <= i <= |inner|
      invariant !(inSingle && inDouble)
      invariant mode == if inSingle then Single else if inDouble then Double else Plain
      invariant EntryEnd(inner, start, Plain, true) == EntryEnd(inner, i, mode, atEntryStart)
      decreases |inner| - i
    {
      var ch := inner[i];
      ghost var from, turn := i, TurnAt(inner, i, mode, atEntryStart);
      if inSingle {
        if ch == '\'' {
          if i + 1 < |inner| && inner[i + 1] == '\'' {
            i := i + 1;
          } else {
            inSingle := false;
            atEntryStart := false;
          }
        }
      } else if inDouble {
        if ch == '\\' && i + 1 < |inner| {
          i := i + 1;
        } else if ch == '\"' {
          inDouble := false;
          atEntryStart := false;
        }
      } else if IsSpace(ch) {
      } else if atEntryStart && ch == '\'' {
        inSingle := true;
      } else if atEntryStart && ch == '\"' {
        inDouble := true;
      } else if ch == ',' {
        return i;
      } else {
        atEntryStart := false;
      }
      i := i + 1;
      mode := if inSingle then Single else if inDouble then Double else Plain;
      assert turn == Take(i - from, mode, atEntryStart);
    }
    return i;
  }

  /** The entries read so far, then those from `start` on. */
  function Collect(inner: string, start: nat, soFar: seq<string>): (r: seq<string>)
    requires start <= |inner|
    decreases |inner| - start
  {
    var end := EntryEnd(inner, start, Plain, true);
    var entry := Trim(inner[start..end]);
    if end < |inner| then Collect(inner, end + 1, soFar + [entry])
    else if entry != "" then soFar + [entry]
    else soFar
  }

  lemma {:induction false} CollectAppends(inner: string, start: nat, soFar: seq<string>)
    requires start <= |inner|
    ensures Collect(inner, start, soFar) == soFar + EntriesFrom(inner, start)
    decreases |inner| - start
  {
    hide EntryEnd, TrimStart, TrimEnd, Trim;
    var end := EntryEnd(inner, start, Plain, true);
    var entry := Trim(inner[start..end]);
    if end < |inner| {
      CollectAppends(inner, end + 1, soFar + [entry]);
      Appended(soFar, entry, EntriesFrom(inner, end + 1));
    }
  }

  lemma Appended(soFar: seq<string>, entry: string, rest: seq<string>)
    ensures (soFar + [entry]) + rest == soFar + ([entry] + rest)
  {
  }

  /** The entries in order; each starts afresh after the comma that ends the one before. */
  method SplitFlowSequenceEntries(inner: string) returns (entries: seq<string>)
    ensures entries == Entries(inner)
  {
    hide EntryEnd, TrimStart, TrimEnd, Trim;
    CollectAppends(inner, 0, []);
    entries := [];
    var start := 0;
    var end := ReadEntry(inner, 0);
    while end < |inner|
      invariant start <= end <= |inner| && end == EntryEnd(inner, start, Plain, true)
      invariant Entries(inner) == Collect(inner, start, entries)
      decreases |inner| - end
    {
      entries := entries + [Trim(inner[start..end])];
      start := end + 1;
      end := ReadEntry(inner, start);
    }
    var last := Trim(inner[start..end]);
    if last != "" { entries := entries + [last]; }
  }
}
