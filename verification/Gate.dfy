/** src/capture/relevance-gate.ts: which turns are kept, and the window of recently kept hashes. */
module Gate {
  import opened Options
  import opened Text
  import opened Turns

  type Digest = string

  /** What the code takes from its surroundings: options, Unicode lower-casing, SHA-256, the UTF-8 length and
      the three structural regular expressions. All are arbitrary here. */
  datatype Env = Env(
    minChars: nat, maxBytes: nat, dedupWindow: nat,
    lower: string -> string, sha256: string -> Digest, byteLength: string -> nat, structural: string -> bool)

  /** `replace(/\s+/g, ' ')` */
  function Collapsed(s: string): (r: string) {
    if s == "" then ""
    else if !IsSpace(s[0]) then [s[0]] + Collapsed(s[1..])
    else if |s| > 1 && IsSpace(s[1]) then Collapsed(s[1..])
    else " " + Collapsed(s[1..])
  }

  function HashTurnText(env: Env, text: string): (r: Digest) {
    env.sha256(Collapsed(env.lower(Trim(text))))
  }

  datatype Reason = TooShort | TooLarge | DuplicateRecent | StructuralJunk

  /** Why a turn is dropped, if it is. `recent` is the set of hashes in insertion order. */
  function GateRelevance(env: Env, turn: Turn, recent: seq<Digest>): (r: Maybe<Reason>) {
    var trimmed := Trim(turn.text);
    if trimmed == "" || env.structural(trimmed) then Just(StructuralJunk)
    else if |trimmed| < env.minChars then Just(TooShort)
    else if env.byteLength(trimmed) > env.maxBytes then Just(TooLarge)
    else if HashTurnText(env, trimmed) in recent then Just(DuplicateRecent)
    else Nothing
  }

  /** Gating hashes the trimmed text and recording the whole text: the same hash. */
  lemma GateAndRecordHashAlike(env: Env, text: string)
    ensures HashTurnText(env, Trim(text)) == HashTurnText(env, text)
  {
    TrimIdempotent(text);
  }

  // ---- the dedup window ----

  predicate NoRepeat<T(==)>(s: seq<T>) {
    forall i, j | 0 <= i < j < |s| :: s[i] != s[j]
  }

  function LastN<T>(s: seq<T>, n: nat): (r: seq<T>)
    ensures |r| == if |s| < n then |s| else n
  {
    if |s| <= n then s else s[|s| - n..]
  }

  /** The set after recording a hash. */
  function Recorded(recent: seq<Digest>, h: Digest, window: nat): (r: seq<Digest>) {
    LastN(if h in recent then recent else recent + [h], window)
  }

  /** `Set.add`, then evictions from the oldest end. */
  method RecordCapturedTurnHash(env: Env, recentHashes: seq<Digest>, text: string) returns (updated: seq<Digest>)
    ensures updated == Recorded(recentHashes, HashTurnText(env, text), env.dedupWindow)
  {
    var h := HashTurnText(env, text);
    updated := if h in recentHashes then recentHashes else recentHashes + [h];
    ghost var all := updated;
    while |updated| > env.dedupWindow
      invariant |updated| <= |all| && updated == all[|all| - |updated|..]
      invariant |all| > env.dedupWindow ==> |updated| >= env.dedupWindow
      invariant |all| <= env.dedupWindow ==> updated == all
      decreases |updated|
    {
      updated := updated[1..];
    }
  }

  function RecordedAll(recent: seq<Digest>, hs: seq<Digest>, window: nat): (r: seq<Digest>)
    decreases |hs|
  {
    if hs == [] then recent else RecordedAll(Recorded(recent, hs[0], window), hs[1..], window)
  }

  lemma LastNSnoc<T>(log: seq<T>, h: T, n: nat)
    ensures LastN(LastN(log, n) + [h], n) == LastN(log + [h], n)
  {
  }

  lemma LastNIn<T>(log: seq<T>, n: nat, i: nat)
    requires i < |log| && |log| - i <= n
    ensures log[i] in LastN(log, n)
  {
    var r := LastN(log, n);
    assert log[i] == r[i - (|log| - |r|)];
  }

  lemma LastNSub<T>(log: seq<T>, n: nat, x: T)
    requires x in LastN(log, n)
    ensures exists i :: 0 <= i < |log| && |log| - i <= n && log[i] == x
  {
    var r := LastN(log, n);
    var j :| 0 <= j < |r| && r[j] == x;
    assert log[j + (|log| - |r|)] == x;
  }

  /** Equal hashes in the log stand more than `window` positions apart. */
  predicate FarApart(log: seq<Digest>, window: nat) {
    forall i, j | 0 <= i < j < |log| && log[i] == log[j] :: j - i > window
  }

  lemma FarApartSnoc(log: seq<Digest>, h: Digest, window: nat)
    requires FarApart(log, window) && h !in LastN(log, window)
    ensures FarApart(log + [h], window)
  {
    forall i | 0 <= i < |log| && log[i] == h
      ensures |log| - i > window
    {
      if |log| - i <= window { LastNIn(log, window, i); }
    }
  }

  lemma OldOrNew(log: seq<Digest>, h: Digest, g: Digest, window: nat)
    requires g in LastN(log + [h], window)
    ensures g == h || g in LastN(log, window)
  {
    LastNSub(log + [h], window, g);
    var i :| 0 <= i < |log + [h]| && |log + [h]| - i <= window && (log + [h])[i] == g;
    if i < |log| {
      LastNIn(log, window, i);
    }
  }

  lemma NoRepeatCons(hs: seq<Digest>)
    requires NoRepeat(hs) && hs != []
    ensures NoRepeat(hs[1..]) && hs[0] in hs && hs[0] !in hs[1..] && forall g | g in hs[1..] :: g in hs
  {
  }

  lemma RecordedNew(recent: seq<Digest>, h: Digest, window: nat)
    requires h !in recent
    ensures Recorded(recent, h, window) == LastN(recent + [h], window)
  {
  }

  /** Recording hashes that are new to the window keeps it the last entries of the log of all recorded
      hashes, and keeps equal entries of that log far apart. */
  lemma {:induction false} WindowIsLogSuffix(log: seq<Digest>, hs: seq<Digest>, window: nat)
    requires NoRepeat(hs) && FarApart(log, window)
    requires forall h <- hs :: h !in LastN(log, window)
    ensures RecordedAll(LastN(log, window), hs, window) == LastN(log + hs, window)
    ensures FarApart(log + hs, window)
    decreases |hs|
  {
    if hs == [] {
      assert log + hs == log;
    } else {
      hide FarApart, LastN, NoRepeat, Recorded, RecordedAll;
      var h, rest := hs[0], hs[1..];
      NoRepeatCons(hs);
      LastNSnoc(log, h, window);
      FarApartSnoc(log, h, window);
      RestIsNew(log, h, rest, window);
      RecordedNew(LastN(log, window), h, window);
      RecordedAllCons(LastN(log, window), hs, window);
      WindowIsLogSuffix(log + [h], rest, window);
      assert log + [h] + rest == log + hs;
    }
  }

  lemma RecordedAllCons(recent: seq<Digest>, hs: seq<Digest>, window: nat)
    requires hs != []
    ensures RecordedAll(recent, hs, window) == RecordedAll(Recorded(recent, hs[0], window), hs[1..], window)
  {
  }

  lemma RestIsNew(log: seq<Digest>, h: Digest, rest: seq<Digest>, window: nat)
    requires h !in rest && forall g <- rest :: g !in LastN(log, window)
    ensures forall g <- rest :: g !in LastN(log + [h], window)
  {
    hide LastN;
    forall g | g in rest
      ensures g !in LastN(log + [h], window)
    {
      if g in LastN(log + [h], window) { OldOrNew(log, h, g, window); }
    }
  }

  // ---- gating one exchange ----

  /** The turns of one exchange that survive, given the window and the hashes already seen in the exchange. */
  function Survivors(env: Env, turns: seq<Turn>, recent: seq<Digest>, seen: set<Digest>): (r: seq<Turn>) {
    if turns == [] then []
    else
      var h := HashTurnText(env, turns[0].text);
      if GateRelevance(env, turns[0], recent).Just? || h in seen then Survivors(env, turns[1..], recent, seen)
      else [turns[0]] + Survivors(env, turns[1..], recent, seen + {h})
  }

  function Hashes(env: Env, turns: seq<Turn>): (hs: seq<Digest>)
    ensures |hs| == |turns| && forall i :: 0 <= i < |turns| ==> hs[i] == HashTurnText(env, turns[i].text)
  {
    seq(|turns|, i requires 0 <= i < |turns| => HashTurnText(env, turns[i].text))
  }

  /** Phase one of the capture: decides without touching the window. */
  method GateTurns(env: Env, turns: seq<Turn>, recentHashes: seq<Digest>) returns (gated: seq<Turn>)
    ensures gated == Survivors(env, turns, recentHashes, {})
  {
    hide GateRelevance, HashTurnText;
    gated := [];
    var exchangeSeenHashes: set<Digest> := {};
    assert turns[0..] == turns;
    for i := 0 to |turns|
      invariant gated + Survivors(env, turns[i..], recentHashes, exchangeSeenHashes)
             == Survivors(env, turns, recentHashes, {})
    {
      var turn := turns[i];
      assert turns[i..][0] == turn && turns[i..][1..] == turns[i + 1..];
      if GateRelevance(env, turn, recentHashes).Nothing? {
        var hash := HashTurnText(env, turn.text);
        if hash !in exchangeSeenHashes {
          exchangeSeenHashes := exchangeSeenHashes + {hash};
          gated := gated + [turn];
        }
      }
    }
    assert turns[|turns|..] == [];
  }

  /** Survivors are new to the window and to each other. */
  lemma {:induction false} SurvivorsAreNew(env: Env, turns: seq<Turn>, recent: seq<Digest>, seen: set<Digest>)
    ensures var hs := Hashes(env, Survivors(env, turns, recent, seen));
            NoRepeat(hs) && forall h <- hs :: h !in recent && h !in seen
    decreases |turns|
  {
    hide HashTurnText, TrimStart, TrimEnd;
    if turns != [] {
      var h, rest := HashTurnText(env, turns[0].text), turns[1..];
      if GateRelevance(env, turns[0], recent).Just? || h in seen {
        SurvivorsAreNew(env, rest, recent, seen);
      } else {
        GateAndRecordHashAlike(env, turns[0].text);
        SurvivorsAreNew(env, rest, recent, seen + {h});
        var tail := Survivors(env, rest, recent, seen + {h});
        var hs, ts := Hashes(env, [turns[0]] + tail), Hashes(env, tail);
        assert hs == [h] + ts;
        forall i, j | 0 <= i < j < |hs|
          ensures hs[i] != hs[j]
        {
          assert hs[j] == ts[j - 1] && ts[j - 1] in ts;
          assert i > 0 ==> hs[i] == ts[i - 1];
        }
      }
    }
  }

  /** Survivors keep their order: each is one of the turns, and roles are kept. */
  lemma {:induction false} SurvivorsAreTurns(env: Env, turns: seq<Turn>, recent: seq<Digest>, seen: set<Digest>)
    ensures forall t <- Survivors(env, turns, recent, seen) :: t in turns
  {
    hide GateRelevance, HashTurnText;
    if turns != [] {
      var h := HashTurnText(env, turns[0].text);
      SurvivorsAreTurns(env, turns[1..], recent, seen);
      SurvivorsAreTurns(env, turns[1..], recent, seen + {h});
    }
  }

  lemma {:induction false} SurvivorsSplit(env: Env, a: seq<Turn>, b: seq<Turn>, recent: seq<Digest>, seen: set<Digest>)
      returns (seen': set<Digest>)
    ensures Survivors(env, a + b, recent, seen) == Survivors(env, a, recent, seen) + Survivors(env, b, recent, seen')
  {
    hide GateRelevance, HashTurnText;
    if a == [] {
      assert a + b == b;
      seen' := seen;
    } else {
      assert (a + b)[1..] == a[1..] + b;
      var h := HashTurnText(env, a[0].text);
      var dropped := GateRelevance(env, a[0], recent).Just? || h in seen;
      seen' := SurvivorsSplit(env, a[1..], b, recent, if dropped then seen else seen + {h});
    }
  }

  // ---- which turns are kept ----

  /** A turn worth keeping: text to read, no structural junk, neither too short nor too large. */
  predicate Worth(env: Env, turn: Turn) {
    var text := Trim(turn.text);
    text != "" && !env.structural(text) && env.minChars <= |text| && env.byteLength(text) <= env.maxBytes
  }

  /** The gate lets through exactly the turns worth keeping whose hash is not in the window. */
  lemma GateExactly(env: Env, turn: Turn, recent: seq<Digest>)
    ensures GateRelevance(env, turn, recent).Nothing? <==> Worth(env, turn) && HashTurnText(env, turn.text) !in recent
  {
    hide TrimStart, TrimEnd;
    GateAndRecordHashAlike(env, turn.text);
  }

  /** One more turn survives exactly when it is worth keeping and its hash is neither in the window, nor seen, nor
      that of a survivor before it. */
  lemma {:induction false} SurvivorsSnoc(env: Env, turns: seq<Turn>, t: Turn, recent: seq<Digest>, seen: set<Digest>)
    ensures var before := Survivors(env, turns, recent, seen);
            var h := HashTurnText(env, t.text);
            Survivors(env, turns + [t], recent, seen)
            == before + if Worth(env, t) && h !in recent && h !in seen && h !in Hashes(env, before) then [t] else []
  {
    hide GateRelevance, HashTurnText, Worth;
    GateExactly(env, t, recent);
    if turns == [] {
      assert turns + [t] == [t] && [t][1..] == [];
      assert Hashes(env, []) == [];
    } else {
      var first, h := turns[0], HashTurnText(env, turns[0].text);
      assert (turns + [t])[1..] == turns[1..] + [t];
      if GateRelevance(env, first, recent).Just? || h in seen {
        SurvivorsSnoc(env, turns[1..], t, recent, seen);
      } else {
        SurvivorsSnoc(env, turns[1..], t, recent, seen + {h});
        var rest := Survivors(env, turns[1..], recent, seen + {h});
        HashesCons(env, first, rest);
      }
    }
  }

  lemma HashesCons(env: Env, t: Turn, rest: seq<Turn>)
    ensures Hashes(env, [t] + rest) == [HashTurnText(env, t.text)] + Hashes(env, rest)
  {
    hide HashTurnText;
  }

  /** Every survivor is worth keeping. */
  lemma {:induction false} SurvivorsAreWorth(env: Env, turns: seq<Turn>, recent: seq<Digest>, seen: set<Digest>)
    ensures forall t <- Survivors(env, turns, recent, seen) :: Worth(env, t)
    decreases |turns|
  {
    hide GateRelevance, HashTurnText, Worth;
    if turns != [] {
      var n := |turns| - 1;
      SurvivorsAreWorth(env, turns[..n], recent, seen);
      SurvivorsSnoc(env, turns[..n], turns[n], recent, seen);
      assert turns == turns[..n] + [turns[n]];
    }
  }

  /** A turn is kept exactly when it is worth keeping, new to the window, and the first such turn of its hash. */
  lemma {:induction false} KeptExactly(env: Env, turns: seq<Turn>, recent: seq<Digest>, i: nat)
    requires i < |turns|
    ensures var h := HashTurnText(env, turns[i].text);
            Survivors(env, turns[..i + 1], recent, {}) == Survivors(env, turns[..i], recent, {}) + [turns[i]]
            <==> Worth(env, turns[i]) && h !in recent
                 && forall j | 0 <= j < i && HashTurnText(env, turns[j].text) == h :: !Worth(env, turns[j])
  {
    hide GateRelevance, HashTurnText, Worth;
    var before, h := turns[..i], HashTurnText(env, turns[i].text);
    assert turns[..i + 1] == before + [turns[i]];
    SurvivorsSnoc(env, before, turns[i], recent, {});
    if h !in recent { HashKept(env, before, recent, h); }
    assert Survivors(env, before, recent, {}) + [] == Survivors(env, before, recent, {});
    assert forall j | 0 <= j < i :: before[j] == turns[j];
  }

  lemma {:induction false} HashKept(env: Env, turns: seq<Turn>, recent: seq<Digest>, h: Digest)
    requires h !in recent
    ensures h in Hashes(env, Survivors(env, turns, recent, {}))
       <==> exists j :: 0 <= j < |turns| && HashTurnText(env, turns[j].text) == h && Worth(env, turns[j])
    decreases |turns|
  {
    hide GateRelevance, HashTurnText, Worth;
    if turns == [] {
      assert Hashes(env, []) == [];
    } else {
      var n := |turns| - 1;
      var front, t := turns[..n], turns[n];
      assert turns == front + [t];
      HashKept(env, front, recent, h);
      SurvivorsSnoc(env, front, t, recent, {});
      var before := Survivors(env, front, recent, {});
      HashesSnoc(env, before, t);
      assert before + [] == before;
      assert forall j | 0 <= j < n :: front[j] == turns[j];
    }
  }

  lemma HashesSnoc(env: Env, before: seq<Turn>, t: Turn)
    ensures Hashes(env, before + [t]) == Hashes(env, before) + [HashTurnText(env, t.text)]
  {
    hide HashTurnText;
  }
}
