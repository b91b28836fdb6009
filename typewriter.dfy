/**
 * The animated placeholder of the prompt box (src/extension.ts:374-425).
 * `exampleIndex` and `charIndex` are globals of the webview script; `typing`
 * is a local of each `typeWriter()` call, shared by the timer chain that call
 * starts. One `type()` step is modelled atomically; it takes the chain's
 * `typing` flag and returns the flag and delay of the timeout it schedules.
 */
module Typewriter {

  const Examples: seq<string> := [
    "Write a Python function that returns the most frequent element.",
    "Build me a landing page for my restaurant.",
    "Fix my code."
  ]

  /** The `setTimeout` delays, in milliseconds. */
  const TypeDelay: nat := 40
  const PauseDelay: nat := 1000
  const DeleteDelay: nat := 25
  const NextDelay: nat := 250

  /** What `type()` schedules: nothing, or another step of the same chain. */
  datatype Tick = Stopped | Again(typing: bool, delay: nat)

  /** The globals and the text of the placeholder element. */
  datatype Placeholder = Placeholder(exampleIndex: nat, charIndex: nat, text: string)

  /** `s.substring(0, n)` for n >= 0: the index is clamped to the length. */
  function Substring(s: string, n: nat): string
  {
    if n <= |s| then s[..n] else s
  }

  predicate Inv(p: Placeholder)
  {
    && p.exampleIndex < |Examples|
    && p.charIndex <= |Examples[p.exampleIndex]| + 1
    && p.text <= Examples[p.exampleIndex]
    && |p.text| <= p.charIndex
  }

  /** One call of `type()` by a chain whose `typing` flag is `typing`. */
  function TypeStep(p: Placeholder, typing: bool, inputLength: nat): (r: (Placeholder, Tick))
    requires p.exampleIndex < |Examples|
    ensures r.0.exampleIndex < |Examples|
    ensures Inv(p) ==> Inv(r.0)
    ensures r.1.Stopped? <==> inputLength > 0
    ensures inputLength > 0 ==> r.0 == p.(text := "")
    ensures r.0.exampleIndex != p.exampleIndex <==> inputLength == 0 && !typing && p.charIndex == 0
    ensures r.0.exampleIndex != p.exampleIndex ==> r.0.exampleIndex == (p.exampleIndex + 1) % |Examples|
    ensures r.0.charIndex == p.charIndex || r.0.charIndex == p.charIndex + 1 || r.0.charIndex + 1 == p.charIndex
  {
    var example := Examples[p.exampleIndex];
    if inputLength > 0 then (p.(text := ""), Stopped)
    else if typing then
      if p.charIndex <= |example| then
        (p.(text := Substring(example, p.charIndex), charIndex := p.charIndex + 1), Again(true, TypeDelay))
      else (p, Again(false, PauseDelay))
    else if p.charIndex > 0 then
      (p.(charIndex := p.charIndex - 1, text := Substring(example, p.charIndex - 1)), Again(false, DeleteDelay))
    else (p.(exampleIndex := (p.exampleIndex + 1) % |Examples|), Again(true, NextDelay))
  }

  /** n steps of one chain while the prompt box stays empty; returns the state and the chain's flag. */
  function Ticks(p: Placeholder, typing: bool, n: nat): (r: (Placeholder, bool))
    requires p.exampleIndex < |Examples|
    ensures r.0.exampleIndex < |Examples|
    ensures Inv(p) ==> Inv(r.0)
    decreases n
  {
    if n == 0 then (p, typing)
    else
      var (q, tick) := TypeStep(p, typing, 0);
      Ticks(q, tick.typing, n - 1)
  }

  lemma {:induction false} TicksAdd(p: Placeholder, typing: bool, a: nat, b: nat)
    requires p.exampleIndex < |Examples|
    ensures Ticks(p, typing, a + b) == Ticks(Ticks(p, typing, a).0, Ticks(p, typing, a).1, b)
    decreases a
  {
    if a > 0 {
      var (q, tick) := TypeStep(p, typing, 0);
      TicksAdd(q, tick.typing, a - 1, b);
      assert a + b - 1 == (a - 1) + b;
    }
  }

  /** Typing shows one more character per step until the whole example is shown. */
  lemma {:induction false} TypingPhase(p: Placeholder)
    requires Inv(p) && p.charIndex <= |Examples[p.exampleIndex]|
    ensures var example := Examples[p.exampleIndex];
      Ticks(p, true, |example| + 1 - p.charIndex) == (Placeholder(p.exampleIndex, |example| + 1, example), true)
    decreases |Examples[p.exampleIndex]| - p.charIndex
  {
    var example := Examples[p.exampleIndex];
    var q := TypeStep(p, true, 0).0;
    assert q == Placeholder(p.exampleIndex, p.charIndex + 1, example[..p.charIndex]);
    if p.charIndex < |example| {
      TypingPhase(q);
    } else {
      assert example[..p.charIndex] == example;
    }
  }

  /** Deleting removes one character per step until nothing is shown. */
  lemma {:induction false} DeletingPhase(p: Placeholder)
    requires Inv(p) && p.charIndex > 0
    ensures Ticks(p, false, p.charIndex) == (Placeholder(p.exampleIndex, 0, ""), false)
    decreases p.charIndex
  {
    var example := Examples[p.exampleIndex];
    var q := TypeStep(p, false, 0).0;
    assert q == Placeholder(p.exampleIndex, p.charIndex - 1, example[..p.charIndex - 1]);
    if p.charIndex > 1 {
      DeletingPhase(q);
    }
  }

  /**
   * From an empty placeholder, one chain types the current example in full,
   * pauses, deletes it and moves on to the next example in exactly
   * 2 * length + 4 steps.
   */
  lemma FullCycle(exampleIndex: nat)
    requires exampleIndex < |Examples|
    ensures var n := |Examples[exampleIndex]|;
      Ticks(Placeholder(exampleIndex, 0, ""), true, 2 * n + 4)
        == (Placeholder((exampleIndex + 1) % |Examples|, 0, ""), true)
  {
    var example := Examples[exampleIndex];
    var n := |example|;
    var start := Placeholder(exampleIndex, 0, "");
    var full := Placeholder(exampleIndex, n + 1, example);
    var empty := Placeholder(exampleIndex, 0, "");
    TypingPhase(start);
    assert Ticks(full, true, 1) == (full, false);
    DeletingPhase(full);
    assert Ticks(empty, false, 1) == (Placeholder((exampleIndex + 1) % |Examples|, 0, ""), true);
    TicksAdd(start, true, n + 1, 1);
    TicksAdd(start, true, n + 2, n + 1);
    TicksAdd(start, true, 2 * n + 3, 1);
  }

  class Typewriter {
    var exampleIndex: nat
    var charIndex: nat
    /** The text of the placeholder element. */
    var text: string

    ghost function Current(): Placeholder
      reads this
    {
      Placeholder(exampleIndex, charIndex, text)
    }

    ghost predicate Valid()
      reads this
    {
      Inv(Current())
    }

    constructor ()
      ensures Valid() && Current() == Placeholder(0, 0, "")
    {
      exampleIndex, charIndex, text := 0, 0, "";
    }

    /** `type()`, run by a chain whose flag is `typing`, with the prompt box holding `inputLength` characters. */
    method Type(typing: bool, inputLength: nat) returns (tick: Tick)
      requires Valid()
      modifies this
      ensures Valid()
      ensures (Current(), tick) == TypeStep(old(Current()), typing, inputLength)
    {
      if inputLength > 0 {
        text := "";
        return Stopped;
      }
      var example := Examples[exampleIndex];
      if typing {
        if charIndex <= |example| {
          text := Substring(example, charIndex);
          charIndex := charIndex + 1;
          tick := Again(true, TypeDelay);
        } else {
          tick := Again(false, PauseDelay);
        }
      } else {
        if charIndex > 0 {
          charIndex := charIndex - 1;
          text := Substring(example, charIndex);
          tick := Again(false, DeleteDelay);
        } else {
          exampleIndex := (exampleIndex + 1) % |Examples|;
          tick := Again(true, NextDelay);
        }
      }
    }

    /** `typeWriter()`: a new chain starts typing and takes its first step at once. */
    method TypeWriter(inputLength: nat) returns (tick: Tick)
      requires Valid()
      modifies this
      ensures Valid()
      ensures (Current(), tick) == TypeStep(old(Current()), true, inputLength)
    {
      tick := Type(true, inputLength);
    }

    /** The prompt box's `input` listener. */
    method OnInput(inputLength: nat) returns (tick: Tick)
      requires Valid()
      modifies this
      ensures Valid()
      ensures inputLength > 0 ==> Current() == old(Current()).(text := "") && tick == Stopped
      ensures inputLength == 0 ==> (Current(), tick) == TypeStep(old(Current()), true, 0)
    {
      if inputLength > 0 {
        text := "";
        tick := Stopped;
      } else {
        tick := TypeWriter(inputLength);
      }
    }
  }
}
