/**
 * The identifier colorizer: a registry from identifiers to palette indices
 * plus a round-robin counter. `Step` is the effect of one call of the
 * colorizer on a message; `Logger` holds the registry as mutable state and
 * its methods are proved to perform `Step` and `Expired`.
 */
module Colorizer {
  import opened Wrappers
  import opened Tables
  import opened IdPattern

  /** The registry `colorMap` and the counter `nextColor`. */
  datatype Registry = Registry(colorMap: map<string, nat>, nextColor: nat) {
    /** The counter and every stored index are valid palette indices. */
    predicate Valid() {
      nextColor < AvailableColorsCount &&
      forall id :: id in colorMap ==> colorMap[id] < AvailableColorsCount
    }
  }

  /** The registry at process start: empty, counter at 0. */
  const Initial: Registry := Registry(map[], 0)

  /** What one call returns, and the registry it leaves behind. */
  datatype StepResult = StepResult(output: string, registry: Registry)

  /** A palette index for an identifier, and the registry after the lookup. */
  datatype Assignment = Assignment(index: nat, registry: Registry)

  /** The counter after one assignment: one more, back to 0 after the last palette entry. */
  function Advance(col: nat): (next: nat)
    requires col < AvailableColorsCount
    ensures next < AvailableColorsCount
    ensures next == (col + 1) % AvailableColorsCount
  {
    if col + 1 == AvailableColorsCount then 0 else col + 1
  }

  /**
   * The lookup of `id`: its stored index, or on first sight the counter's
   * value, which is then stored under `id` while the counter advances.
   */
  function Assign(reg: Registry, id: string): (a: Assignment)
    requires reg.Valid()
    ensures a.registry.Valid()
    ensures id in a.registry.colorMap && a.registry.colorMap[id] == a.index
    ensures a.registry.colorMap.Keys == reg.colorMap.Keys + {id}
    ensures forall other :: other in reg.colorMap ==> a.registry.colorMap[other] == reg.colorMap[other]
  {
    if id in reg.colorMap then
      Assignment(reg.colorMap[id], reg)
    else
      Assignment(reg.nextColor, Registry(reg.colorMap[id := reg.nextColor], Advance(reg.nextColor)))
  }

  /**
   * One call of the colorizer on `msg`. Without decoration, or when `msg` does
   * not match the pattern, the message and the registry are left alone;
   * otherwise the identifier is looked up and the message rebuilt in its colour.
   */
  function Step(debug: bool, reg: Registry, msg: string): (r: StepResult)
    requires reg.Valid()
    ensures r.registry.Valid()
  {
    if debug && MatchesIdPattern(msg) then
      var a := Assign(reg, ExtractId(msg));
      StepResult(Render(msg, AvailableColors[a.index]), a.registry)
    else
      StepResult(msg, reg)
  }

  /** The registry after the timer of `id` has fired. */
  function Expired(reg: Registry, id: string): (r: Registry)
    requires reg.Valid()
    ensures r.Valid()
    ensures id !in r.colorMap
    ensures forall other :: other != id ==> (other in r.colorMap <==> other in reg.colorMap)
    ensures forall other :: other in r.colorMap ==> r.colorMap[other] == reg.colorMap[other]
    ensures r.nextColor == reg.nextColor
  {
    Registry(reg.colorMap - {id}, reg.nextColor)
  }

  /** Decoration off, or no match: identity, and the registry is unchanged. */
  lemma PassThrough(debug: bool, reg: Registry, msg: string)
    requires reg.Valid()
    requires !debug || !MatchesIdPattern(msg)
    ensures Step(debug, reg, msg) == StepResult(msg, reg)
  {
  }

  /**
   * First sight: the message is shown in the counter's colour, the identifier
   * becomes a key with that index, no other key changes, the counter advances.
   */
  lemma FirstSighting(debug: bool, reg: Registry, msg: string)
    requires reg.Valid() && debug && MatchesIdPattern(msg)
    requires ExtractId(msg) !in reg.colorMap
    ensures Step(debug, reg, msg) == StepResult(
      Render(msg, AvailableColors[reg.nextColor]),
      Registry(reg.colorMap[ExtractId(msg) := reg.nextColor], (reg.nextColor + 1) % AvailableColorsCount))
  {
  }

  /** Repeat sight: the stored index is reused and the registry does not change. */
  lemma RepeatSighting(debug: bool, reg: Registry, msg: string)
    requires reg.Valid() && debug && MatchesIdPattern(msg)
    requires ExtractId(msg) in reg.colorMap
    ensures Step(debug, reg, msg) == StepResult(Render(msg, AvailableColors[reg.colorMap[ExtractId(msg)]]), reg)
  {
  }

  /** Two messages with the same identifier, one after the other, get the same colour. */
  lemma StableColor(debug: bool, reg: Registry, m1: string, m2: string)
    requires reg.Valid() && debug && MatchesIdPattern(m1) && MatchesIdPattern(m2)
    requires ExtractId(m1) == ExtractId(m2)
    ensures var r1 := Step(debug, reg, m1);
      var i := r1.registry.colorMap[ExtractId(m1)];
      r1.output == Render(m1, AvailableColors[i]) &&
      Step(debug, r1.registry, m2) == StepResult(Render(m2, AvailableColors[i]), r1.registry)
  {
  }

  /** Stripping the colour codes from any output gives back the message. */
  lemma OutputStripsToMessage(debug: bool, reg: Registry, msg: string)
    requires reg.Valid()
    ensures var r := Step(debug, reg, msg);
      if debug && MatchesIdPattern(msg) then
        StripColor(r.output, AvailableColors[r.registry.colorMap[ExtractId(msg)]]) == Some(msg)
      else r.output == msg
  {
    if debug && MatchesIdPattern(msg) {
      var i := Assign(reg, ExtractId(msg)).index;
      PaletteOpenHasNoBracket(i);
      StripRender(msg, AvailableColors[i]);
    }
  }

  /** An expired identifier is seen afresh: it gets the current counter, which expiry did not reset. */
  lemma ExpireThenResight(debug: bool, reg: Registry, msg: string)
    requires reg.Valid() && debug && MatchesIdPattern(msg)
    ensures var r := Step(debug, Expired(reg, ExtractId(msg)), msg);
      r.output == Render(msg, AvailableColors[reg.nextColor]) &&
      r.registry.colorMap[ExtractId(msg)] == reg.nextColor &&
      r.registry.nextColor == (reg.nextColor + 1) % AvailableColorsCount
  {
  }

  /** The registry after a whole sequence of calls, in order. */
  function Run(debug: bool, reg: Registry, msgs: seq<string>): (r: Registry)
    requires reg.Valid()
    ensures r.Valid()
    decreases |msgs|
  {
    if msgs == [] then reg else Run(debug, Step(debug, reg, msgs[0]).registry, msgs[1..])
  }

  /** The registry after looking up a sequence of identifiers, in order. */
  function AssignAll(reg: Registry, ids: seq<string>): (r: Registry)
    requires reg.Valid()
    ensures r.Valid()
    decreases |ids|
  {
    if ids == [] then reg else AssignAll(Assign(reg, ids[0]).registry, ids[1..])
  }

  /** The identifiers of a sequence of matching messages. */
  function IdsOf(msgs: seq<string>): (ids: seq<string>)
    requires forall i :: 0 <= i < |msgs| ==> MatchesIdPattern(msgs[i])
    ensures |ids| == |msgs|
    ensures forall i :: 0 <= i < |msgs| ==> ids[i] == ExtractId(msgs[i])
  {
    if msgs == [] then [] else [ExtractId(msgs[0])] + IdsOf(msgs[1..])
  }

  /** With decoration on, a run of matching messages looks up their identifiers in order. */
  lemma {:induction false} RunLooksUpIds(reg: Registry, msgs: seq<string>)
    requires reg.Valid()
    requires forall i :: 0 <= i < |msgs| ==> MatchesIdPattern(msgs[i])
    ensures Run(true, reg, msgs) == AssignAll(reg, IdsOf(msgs))
    decreases |msgs|
  {
    if msgs != [] {
      var tail := msgs[1..];
      assert forall i :: 0 <= i < |tail| ==> tail[i] == msgs[i + 1];
      RunLooksUpIds(Step(true, reg, msgs[0]).registry, tail);
      assert IdsOf(msgs)[1..] == IdsOf(tail);
    }
  }

  /** Without expiry no entry is ever dropped or changed. */
  lemma {:induction false} AssignAllKeepsEntries(reg: Registry, ids: seq<string>, id: string)
    requires reg.Valid() && id in reg.colorMap
    ensures id in AssignAll(reg, ids).colorMap
    ensures AssignAll(reg, ids).colorMap[id] == reg.colorMap[id]
    decreases |ids|
  {
    if ids != [] {
      AssignAllKeepsEntries(Assign(reg, ids[0]).registry, ids[1..], id);
    }
  }

  /** The identifiers are pairwise distinct and none is in the registry yet. */
  predicate FreshIds(reg: Registry, ids: seq<string>) {
    (forall i :: 0 <= i < |ids| ==> ids[i] !in reg.colorMap) &&
    (forall i, j :: 0 <= i < j < |ids| ==> ids[i] != ids[j])
  }

  /** The palette index of the i-th new identifier when the counter starts at `start`. */
  function RoundRobinIndex(start: nat, i: nat): nat {
    (start + i) % AvailableColorsCount
  }

  /** Advancing the counter once moves the round robin on by one identifier. */
  lemma AdvanceShifts(start: nat, i: nat)
    requires start < AvailableColorsCount
    ensures RoundRobinIndex(Advance(start), i) == RoundRobinIndex(start, i + 1)
  {
  }

  /** The round robin repeats after one pass over the palette. */
  lemma RoundRobinPeriodic(start: nat, i: nat)
    ensures RoundRobinIndex(start, i) == RoundRobinIndex(start, i + AvailableColorsCount)
  {
  }

  /**
   * Round robin: the i-th of a run of new, distinct identifiers gets index
   * (counter + i) mod 6, and the counter ends at (counter + count) mod 6.
   */
  lemma {:induction false} RoundRobin(reg: Registry, ids: seq<string>)
    requires reg.Valid() && FreshIds(reg, ids)
    ensures AssignAll(reg, ids).nextColor == RoundRobinIndex(reg.nextColor, |ids|)
    ensures forall i :: 0 <= i < |ids| ==>
      ids[i] in AssignAll(reg, ids).colorMap &&
      AssignAll(reg, ids).colorMap[ids[i]] == RoundRobinIndex(reg.nextColor, i)
    decreases |ids|
  {
    if ids == [] {
      assert AvailableColorsCount == 6 && reg.nextColor % 6 == reg.nextColor;
    } else {
      var next := Assign(reg, ids[0]).registry;
      var tail := ids[1..];
      assert next == Registry(reg.colorMap[ids[0] := reg.nextColor], Advance(reg.nextColor));
      assert FreshIds(next, tail) by {
        assert forall i :: 0 <= i < |tail| ==> tail[i] == ids[i + 1];
      }
      RoundRobin(next, tail);
      AssignAllKeepsEntries(next, tail, ids[0]);
      var final := AssignAll(next, tail);
      AdvanceShifts(reg.nextColor, |tail|);
      forall i | 0 <= i < |ids|
        ensures ids[i] in final.colorMap && final.colorMap[ids[i]] == RoundRobinIndex(reg.nextColor, i)
      {
        if i == 0 {
          assert AvailableColorsCount == 6 && reg.nextColor % 6 == reg.nextColor;
        } else {
          assert ids[i] == tail[i - 1];
          AdvanceShifts(reg.nextColor, i - 1);
        }
      }
    }
  }

  /** Six new identifiers later the palette starts over: identifier k and k + 6 share a colour. */
  lemma PaletteWraps(reg: Registry, ids: seq<string>, k: nat)
    requires reg.Valid() && FreshIds(reg, ids)
    requires k + AvailableColorsCount < |ids|
    ensures ids[k] in AssignAll(reg, ids).colorMap
    ensures ids[k + AvailableColorsCount] in AssignAll(reg, ids).colorMap
    ensures AssignAll(reg, ids).colorMap[ids[k]] == AssignAll(reg, ids).colorMap[ids[k + AvailableColorsCount]]
  {
    RoundRobin(reg, ids);
    RoundRobinPeriodic(reg.nextColor, k);
  }

  /**
   * From process start, with decoration on, a run of messages with distinct
   * identifiers gives the i-th of them index i mod 6.
   */
  lemma FromStart(msgs: seq<string>)
    requires forall i :: 0 <= i < |msgs| ==> MatchesIdPattern(msgs[i])
    requires forall i, j :: 0 <= i < j < |msgs| ==> ExtractId(msgs[i]) != ExtractId(msgs[j])
    ensures forall i :: 0 <= i < |msgs| ==>
      ExtractId(msgs[i]) in Run(true, Initial, msgs).colorMap &&
      Run(true, Initial, msgs).colorMap[ExtractId(msgs[i])] == i % AvailableColorsCount
  {
    RunLooksUpIds(Initial, msgs);
    var ids := IdsOf(msgs);
    RoundRobin(Initial, ids);
    forall i | 0 <= i < |msgs|
      ensures ExtractId(msgs[i]) in Run(true, Initial, msgs).colorMap &&
        Run(true, Initial, msgs).colorMap[ExtractId(msgs[i])] == i % AvailableColorsCount
    {
      assert ids[i] == ExtractId(msgs[i]);
      assert RoundRobinIndex(0, i) == i % AvailableColorsCount;
    }
  }

  /**
   * Without expiry the counter is determined by the map: it is the number of
   * distinct identifiers seen so far, modulo the palette size.
   */
  predicate Counted(reg: Registry) {
    reg.Valid() && reg.nextColor == |reg.colorMap.Keys| % AvailableColorsCount
  }

  /** Any call, matching or not, new identifier or repeat, keeps the count. */
  lemma StepCounted(reg: Registry, msg: string)
    requires Counted(reg)
    ensures Counted(Step(true, reg, msg).registry)
  {
    // Spelling out the new key set and the wrap keeps this proof cheap.
    if MatchesIdPattern(msg) {
      var id := ExtractId(msg);
      if id !in reg.colorMap {
        var keys := reg.colorMap[id := reg.nextColor].Keys;
        assert keys == reg.colorMap.Keys + {id};
        assert |keys| == |reg.colorMap.Keys| + 1;
        assert AvailableColorsCount == 6;
        assert Advance(reg.nextColor) == (|reg.colorMap.Keys| + 1) % 6;
      }
    }
  }

  /** A run of calls keeps the count. */
  lemma {:induction false} RunCounted(reg: Registry, msgs: seq<string>)
    requires Counted(reg)
    ensures Counted(Run(true, reg, msgs))
    decreases |msgs|
  {
    if msgs != [] {
      StepCounted(reg, msgs[0]);
      RunCounted(Step(true, reg, msgs[0]).registry, msgs[1..]);
    }
  }

  /**
   * From process start, whatever mixture of new identifiers, repeats and
   * unmatched messages is logged, the counter equals the number of distinct
   * identifiers seen, modulo 6.
   */
  lemma CountFromStart(msgs: seq<string>)
    ensures Run(true, Initial, msgs).nextColor
      == |Run(true, Initial, msgs).colorMap.Keys| % AvailableColorsCount
  {
    assert |Initial.colorMap.Keys| == 0;
    RunCounted(Initial, msgs);
  }

  /**
   * The logger's module state, owned by one object: the decoration flag, the
   * registry and the counter.
   */
  class Logger {
    const debug: bool
    var colorMap: map<string, nat>
    var nextColor: nat

    /** The registry as a value. */
    function Model(): Registry
      reads this
    {
      Registry(colorMap, nextColor)
    }

    predicate Valid()
      reads this
    {
      Model().Valid()
    }

    /** Process start: an empty registry and the counter at 0. */
    constructor (debug: bool)
      ensures this.debug == debug
      ensures Model() == Initial && Valid()
    {
      this.debug := debug;
      colorMap := map[];
      nextColor := 0;
    }

    /** `colorMessage`: colours the leading bracketed identifier of `msg`. */
    method ColorMessage(msg: string) returns (out: string)
      requires Valid()
      modifies this
      ensures Valid()
      ensures StepResult(out, Model()) == Step(debug, old(Model()), msg)
    {
      if debug && MatchesIdPattern(msg) {
        var bracketIndex := IndexOf(msg, ']');
        assert bracketIndex == BracketIndex(msg);
        var id := msg[1..bracketIndex];
        assert id == ExtractId(msg);
        var col: nat;
        if id in colorMap {
          col := colorMap[id];
        } else {
          col := nextColor;
          colorMap := colorMap[id := nextColor];
          nextColor := nextColor + 1;
          if nextColor == AvailableColorsCount {
            nextColor := 0;
          }
        }
        var color := AvailableColors[col];
        out := color.open + "[" + id + "]" + color.close + msg[bracketIndex + 1..];
      } else {
        out := msg;
      }
    }

    /** The deferred deletion of `id` from the registry; the counter is not reset. */
    method Expire(id: string)
      requires Valid()
      modifies this
      ensures Valid()
      ensures Model() == Expired(old(Model()), id)
    {
      colorMap := map k | k in colorMap && k != id :: colorMap[k];
    }
  }

  /** With decoration on, a message `[id]rest` is rebuilt in the colour that the lookup of `id` yields. */
  lemma StepBracketed(reg: Registry, id: string, rest: string)
    requires reg.Valid() && WellFormedId(id)
    ensures var a := Assign(reg, id);
      Step(true, reg, "[" + id + "]" + rest)
      == StepResult(AvailableColors[a.index].open + "[" + id + "]" + AvailableColors[a.index].close + rest, a.registry)
  {
    BracketedMessage(id, rest, AvailableColors[Assign(reg, id).index]);
  }

  /**
   * A session from process start: `[a]` is new and gets index 0, `[a]` again
   * keeps it, a different `[b]` gets index 1, and a message that does not
   * match leaves the registry at exactly {a: 0, b: 1}.
   */
  lemma Session(a: string, b: string, r0: string, r1: string, r2: string, plain: string)
    requires WellFormedId(a) && WellFormedId(b) && a != b
    requires !MatchesIdPattern(plain)
    ensures var s0 := Step(true, Initial, "[" + a + "]" + r0);
      var s1 := Step(true, s0.registry, "[" + a + "]" + r1);
      var s2 := Step(true, s1.registry, "[" + b + "]" + r2);
      var s3 := Step(true, s2.registry, plain);
      s0.output == AvailableColors[0].open + "[" + a + "]" + AvailableColors[0].close + r0 &&
      s1.output == AvailableColors[0].open + "[" + a + "]" + AvailableColors[0].close + r1 &&
      s2.output == AvailableColors[1].open + "[" + b + "]" + AvailableColors[1].close + r2 &&
      s3.output == plain &&
      s3.registry == Registry(map[a := 0, b := 1], 2)
  {
    var reg1 := Registry(map[a := 0], 1);
    var reg2 := Registry(map[a := 0, b := 1], 2);
    assert Assign(Initial, a) == Assignment(0, reg1);
    assert Assign(reg1, a) == Assignment(0, reg1);
    assert Assign(reg1, b) == Assignment(1, reg2);
    StepBracketed(Initial, a, r0);
    StepBracketed(reg1, a, r1);
    StepBracketed(reg1, b, r2);
  }

  /**
   * The session driven through a `Logger`: the outputs it returns, and the
   * registry it ends with.
   */
  method ExampleSession(a: string, b: string, r0: string, r1: string, r2: string, plain: string)
    returns (outs: seq<string>, finalMap: map<string, nat>)
    requires WellFormedId(a) && WellFormedId(b) && a != b
    requires !MatchesIdPattern(plain)
    ensures outs == [
      AvailableColors[0].open + "[" + a + "]" + AvailableColors[0].close + r0,
      AvailableColors[0].open + "[" + a + "]" + AvailableColors[0].close + r1,
      AvailableColors[1].open + "[" + b + "]" + AvailableColors[1].close + r2,
      plain]
    ensures finalMap == map[a := 0, b := 1]
  {
    var logger := new Logger(true);
    Session(a, b, r0, r1, r2, plain);
    var o0 := logger.ColorMessage("[" + a + "]" + r0);
    var o1 := logger.ColorMessage("[" + a + "]" + r1);
    var o2 := logger.ColorMessage("[" + b + "]" + r2);
    var o3 := logger.ColorMessage(plain);
    outs, finalMap := [o0, o1, o2, o3], logger.colorMap;
  }

  /** The strings "abcd", "wxyz" and "no brackets here" meet the session's conditions. */
  lemma ExampleStrings()
    ensures WellFormedId("abcd") && WellFormedId("wxyz")
    ensures !MatchesIdPattern("no brackets here")
  {
    NoBracketNoMatch("no brackets here");
  }
}
