/** The workspace's list of prompt variations: a bounded list of texts that grows by copying the
    current variation and whose entries the editors overwrite. */
module Workspace {
  const MAX_ITERATIONS: nat := 4

  /** The list holds at least the initial text and never more than the cap. */
  predicate Bounded(variations: seq<string>) {
    1 <= |variations| <= MAX_ITERATIONS
  }

  /** The initial list: only the starting content. */
  function Initial(content: string): (r: seq<string>)
    ensures Bounded(r) && r[0] == content
  {
    [content]
  }

  /** `createVariation`: copy the current variation to the end, unless the list is full. */
  function CreateVariation(variations: seq<string>, current: int): (r: seq<string>)
    requires 0 <= current < |variations|
    ensures |variations| >= MAX_ITERATIONS ==> r == variations
    ensures |variations| < MAX_ITERATIONS ==>
      |r| == |variations| + 1 && r[..|variations|] == variations && r[|variations|] == variations[current]
    ensures Bounded(variations) ==> Bounded(r)
  {
    if |variations| >= MAX_ITERATIONS then variations else variations + [variations[current]]
  }

  /** `onPromptTextUpdate` of editor `index`. */
  function UpdateVariation(variations: seq<string>, index: int, text: string): (r: seq<string>)
    requires 0 <= index < |variations|
    ensures |r| == |variations| && r[index] == text
    ensures forall i :: 0 <= i < |variations| && i != index ==> r[i] == variations[i]
  {
    variations[index := text]
  }

  datatype Action = Create(current: int) | Update(index: int, text: string)

  predicate Fits(variations: seq<string>, a: Action) {
    match a
    case Create(current) => 0 <= current < |variations|
    case Update(index, _) => 0 <= index < |variations|
  }

  function Apply(variations: seq<string>, a: Action): seq<string>
    requires Fits(variations, a)
  {
    match a
    case Create(current) => CreateVariation(variations, current)
    case Update(index, text) => UpdateVariation(variations, index, text)
  }

  /** Every action of `actions` refers to an entry that exists when it runs. */
  predicate AllFit(variations: seq<string>, actions: seq<Action>)
    decreases |actions|
  {
    |actions| == 0 || (Fits(variations, actions[0]) && AllFit(Apply(variations, actions[0]), actions[1..]))
  }

  function Run(variations: seq<string>, actions: seq<Action>): seq<string>
    requires AllFit(variations, actions)
    decreases |actions|
  {
    if |actions| == 0 then variations else Run(Apply(variations, actions[0]), actions[1..])
  }

  /** Whatever the user does, the list keeps between one and four variations. */
  lemma {:induction false} RunBounded(variations: seq<string>, actions: seq<Action>)
    requires Bounded(variations) && AllFit(variations, actions)
    ensures Bounded(Run(variations, actions))
    decreases |actions|
  {
    if |actions| > 0 {
      RunBounded(Apply(variations, actions[0]), actions[1..]);
    }
  }

  /** Edits never change the length; only creations do, one entry at a time. */
  lemma {:induction false} RunLength(variations: seq<string>, actions: seq<Action>)
    requires AllFit(variations, actions)
    ensures |variations| <= |Run(variations, actions)|
    ensures |Run(variations, actions)| <= |variations| + |actions|
    decreases |actions|
  {
    if |actions| > 0 {
      RunLength(Apply(variations, actions[0]), actions[1..]);
    }
  }
}
