# SCFG active-chart bindings (Moses2), modelled in Dafny

This project models the symbol-binding core of the Moses2 SCFG decoder's
active chart, from `contrib/moses2/SCFG/ActiveChart.cpp`. As a grammar rule's
right-hand side is matched against the input, the chart records the match.

- A `SymbolBindElement` pairs one grammar symbol (`Word`) with the derivation
  set (`Hypotheses`) it is bound to. Only a non-terminal has a set.
- A `SymbolBind` is the append-only sequence of these elements. It keeps a
  running count `numNT` of its non-terminal positions.
- An `ActiveChartEntry` holds one `SymbolBind`.
- An `ActiveChart` holds the entries of one sentence.

Files:

- `binding.dfy`, module `Binding`: the values. Pointer identity is a 64-bit
  handle, and 0 stands for NULL. The module also holds the element constructor
  and `hash_value`. It defines the specification functions that `SymbolBind`
  is proved against, with the lemmas about them:
  - `CountNT`, the running count;
  - `NTElements`, the non-terminal selection;
  - `NTIndices`, the selected positions;
  - `Render`, the diagnostic text.
- `scfg.dfy`, module `SCFG`: the classes `SymbolBind`, `ActiveChartEntry` and
  `ActiveChart`. `SymbolBind.Add` changes the object in place. The other
  methods keep the loops of the C++ code, each proved against the matching
  specification function. `MatchExample` shows a client: the rule
  `X -> "a" Y "b"` is bound with `Y` covering `[1,3)`.

## Model

| member | source | states |
|---|---|---|
| `Binding.MakeElement` | contrib/moses2/SCFG/ActiveChart.cpp:19-26 | The constructor's assertion is its precondition: a non-terminal must come with a set and a terminal without one. The element stores exactly the given pair and keeps the binding invariant. |
| `Binding.BindingAllowedIsInvariant` | contrib/moses2/SCFG/ActiveChart.cpp:25 | A pairing passes the assertion if and only if the element keeps the invariant: the word is not NULL, and a non-NULL set is present exactly for a non-terminal. |
| `Binding.HashValue` | contrib/moses2/SCFG/ActiveChart.cpp:28-34 | The seed is the set's address, or NULL (0) when there is none. Boost's hash of the word pointer is the parameter `ptrHash`, and it is mixed into the seed. So a terminal hashes to `ptrHash` of its word's address plus the mixing constant. |
| `Binding.NullSeedIsTerminal` | contrib/moses2/SCFG/ActiveChart.cpp:25-30 | For an element that keeps the binding invariant, the seed is NULL exactly when the word is a terminal. |
| `Binding.HashRespectsIdentity` | contrib/moses2/SCFG/ActiveChart.cpp:28-34 | Two elements that reference the same symbol and the same derivation set (or both none) hash equal. The contents of those objects do not matter. |
| `SCFG.SymbolBind.constructor` | contrib/moses2/SCFG/ActiveChart.cpp:37-41 | A fresh bind has no elements, `numNT == 0`, and satisfies the invariant. |
| `SCFG.SymbolBind.Add` | contrib/moses2/SCFG/ActiveChart.cpp:43-51 | `Add` requires the constructor's pairing. It appends exactly the element built from `(word, hypos)` after the unchanged earlier elements, and the span is not stored. `numNT` grows by one exactly for a non-terminal, so `numNT` stays equal to the count of non-terminal elements. |
| `Binding.NTElementsSnoc` | contrib/moses2/SCFG/ActiveChart.cpp:43-67 | Appending one element extends the non-terminal selection by that element if it is a non-terminal, and otherwise leaves the selection unchanged. |
| `SCFG.SymbolBind.GetNTElements` | contrib/moses2/SCFG/ActiveChart.cpp:53-67 | The loop returns exactly the non-terminal selection of `coll`. It has `numNT` elements, each a non-terminal carrying its set. `coll` is read and not changed. |
| `Binding.NTElementsAppend` | contrib/moses2/SCFG/ActiveChart.cpp:53-67 | The selection of a concatenation is the concatenation of the selections. |
| `Binding.NTElementsLength` | contrib/moses2/SCFG/ActiveChart.cpp:48-67 | The number of selected elements equals the running count that `Add` maintains. |
| `Binding.NTElementsAreNonTerminals` | contrib/moses2/SCFG/ActiveChart.cpp:57-64 | Every selected element is a non-terminal. When every element keeps the binding invariant, every selected element also carries a derivation set. |
| `Binding.NTElementsInOrder` | contrib/moses2/SCFG/ActiveChart.cpp:53-67 | The k-th selected element is the element at the k-th of a strictly increasing sequence of positions. A position is in that sequence exactly when it holds a non-terminal. |
| `Binding.NTIndicesIncreasing` | contrib/moses2/SCFG/ActiveChart.cpp:57-64 | The recorded non-terminal positions lie inside the bind and strictly increase. |
| `Binding.NTIndicesExact` | contrib/moses2/SCFG/ActiveChart.cpp:57-64 | A position is recorded exactly when its element is a non-terminal. |
| `Binding.NTElementsAtIndices` | contrib/moses2/SCFG/ActiveChart.cpp:57-64 | There are as many selected elements as recorded positions, and the k-th selected element is the one at the k-th recorded position. |
| `SCFG.SymbolBind.Debug` | contrib/moses2/SCFG/ActiveChart.cpp:69-85 | Debug requires each non-terminal's set to be non-empty, because it reads index 0. The loop returns the fragments of the elements in order. Each fragment is "(", then the span of the first derivation for a non-terminal, then the symbol's text, then ") ". |
| `Binding.RenderAppend` | contrib/moses2/SCFG/ActiveChart.cpp:72-83 | The text of a concatenation is the concatenation of the texts. So after `Add`, the text is the old text followed by the new element's fragment. |
| `Binding.RenderShape` | contrib/moses2/SCFG/ActiveChart.cpp:69-85 | The text is empty exactly when the bind is empty. Otherwise it has at least three characters per element, starts with "(" and ends with ") ". |
| `SCFG.ActiveChartEntry.constructor` | contrib/moses2/SCFG/ActiveChart.cpp:87-90 | A fresh entry holds a fresh, empty bind with `numNT == 0`. |
| `SCFG.ActiveChart.constructor` | contrib/moses2/SCFG/ActiveChart.cpp:93-96 | A fresh chart has no entries. |
| `SCFG.MatchExample` | contrib/moses2/SCFG/ActiveChart.cpp:43-85 | The example binds `"a" Y "b"`, where Y's set covers `[1,3)`. The result has `numNT == 1` and exactly one selected element, Y with its set. The text is `"(a) (" + span + "Y) (b) "`. |

## Left out

- HashValue: boost's hash of a pointer is the parameter `ptrHash`, and its concrete definition is not modelled. The mixing step `HashCombine` is boost's classic `hash_combine` formula over a 64-bit `size_t`. Newer 64-bit boost releases replace that step with a different mixer, so the value for a terminal holds only relative to the classic step. `HashRespectsIdentity` claims only that the hash is a deterministic function of the identity pair, whichever pointer hash is used.
- GetNTElements: the C++ code returns pointers into `coll`, while the model returns the elements themselves. Aliasing of those pointers with the stored elements is not captured.
- MakeElement / Debug: an element keeps copies of its word and derivation set, where the C++ element holds pointers to them. `Debug` follows those pointers when it is called, so it prints the set's current first hypothesis and the word's current text. A change to either object after `Add` is not seen by the model's `Debug`.
- `MemPool` and placement allocation: the pool-backed `Vector` is a Dafny `seq` that the methods reassign. Allocating an entry is ordinary object allocation.
- The default `SymbolBindElement()` constructor leaves its fields uninitialised, and it is not modelled. The empty `ActiveChart` destructor has no behaviour to model.
- `Word::Debug(system)` is the `text` field of `Word`. `Range`'s `operator<<` is the `rangeText` parameter of `Debug`. The `static_cast` to `SCFG::Hypothesis` is a `Hypothesis` that carries its covering span. The code of these is not part of this model.
- `ActiveChart` has no append, span-indexed lookup or deduplication in `ActiveChart.cpp`, so the model has none.
- `contrib/other-builds/moses2/PhraseBased/Sentence.cpp` is input parsing glue (XML markup, tokenisation, reordering constraints) and is not part of this model.
- No concurrency exists in this code.
