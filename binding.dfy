/** The values of the SCFG active chart: grammar symbols, derivation sets,
    one bound right-hand-side position (SymbolBindElement), its identity
    hash, and the specification functions over a sequence of such
    positions that the SymbolBind class is proved against. */
module Binding {

  datatype Option<+T> = None | Some(value: T)

  /** A machine word standing for an object's address; 0 is NULL. Pointer
      identity in the C++ code becomes equality of handles here. */
  type Handle = bv64

  /** A contiguous span of input positions. */
  datatype Range = Range(startPos: nat, endPos: nat)

  /** One derivation; only the span it covers matters to this core. */
  datatype Hypothesis = Hypothesis(range: Range)

  /** A derivation set ("Hypotheses"), referenced by its identity. */
  datatype Hypotheses = Hypotheses(addr: Handle, items: seq<Hypothesis>)

  /** A grammar symbol: its identity, whether it is a non-terminal, and the
      surface text the system's vocabulary renders it as. */
  datatype Word = Word(addr: Handle, isNonTerminal: bool, text: string)

  /** One right-hand-side position: a symbol and, for a non-terminal, the
      derivation set it is bound to. */
  datatype SymbolBindElement = SymbolBindElement(word: Word, hypos: Option<Hypotheses>)
  {
    /** The binding invariant: the word is a real object, and a set, itself
        a real object, is present exactly for a non-terminal. */
    predicate Valid() {
      && word.addr != 0
      && (word.isNonTerminal <==> hypos.Some?)
      && (hypos.Some? ==> hypos.value.addr != 0)
    }
  }

  /** The pairing the element constructor asserts. The word pointer is
      dereferenced by the assertion, so it must not be NULL; a set that is
      present must not sit at the NULL address. */
  predicate BindingAllowed(word: Word, hypos: Option<Hypotheses>) {
    && word.addr != 0
    && ((word.isNonTerminal && hypos.Some? && hypos.value.addr != 0)
        || (!word.isNonTerminal && hypos.None?))
  }

  /** The element constructor: it only stores the pair, after asserting
      that the pairing is allowed. */
  function MakeElement(word: Word, hypos: Option<Hypotheses>): (e: SymbolBindElement)
    requires BindingAllowed(word, hypos)
    ensures e.Valid()
    ensures e.word == word && e.hypos == hypos
  {
    SymbolBindElement(word, hypos)
  }

  /** Every pairing the constructor rejects breaks the binding invariant,
      and every pairing it accepts keeps it. */
  lemma BindingAllowedIsInvariant(word: Word, hypos: Option<Hypotheses>)
    ensures BindingAllowed(word, hypos) <==> SymbolBindElement(word, hypos).Valid()
  {
  }

  // ---------------------------------------------------------------- hashing

  /** The mixing step of boost::hash_combine (classic form) over a 64-bit
      size_t, with wrap-around of bv64 arithmetic. */
  function HashCombine(seed: Handle, v: Handle): Handle {
    seed ^ (v + 0x9e3779b9 + (seed << 6) + (seed >> 2))
  }

  /** The address of the derivation set, NULL (0) when there is none. */
  function HyposAddr(hypos: Option<Hypotheses>): Handle {
    match hypos
    case None => 0
    case Some(h) => h.addr
  }

  /** Two elements are the same binding when they reference the same symbol
      object and the same derivation-set object (or both none). */
  predicate SameIdentity(a: SymbolBindElement, b: SymbolBindElement) {
    a.word.addr == b.word.addr && HyposAddr(a.hypos) == HyposAddr(b.hypos)
  }

  /** hash_value: the derivation set's address is the seed, and boost's hash
      of the word pointer, given here as ptrHash, is combined into it. A
      terminal has no set, so its seed is NULL (0) and only the word's
      pointer hash and the mixing constant remain. */
  function HashValue(e: SymbolBindElement, ptrHash: Handle -> Handle): (h: Handle)
    ensures e.hypos.None? ==> h == ptrHash(e.word.addr) + 0x9e3779b9
  {
    HashCombine(HyposAddr(e.hypos), ptrHash(e.word.addr))
  }

  /** For an element that keeps the binding invariant, the NULL seed marks
      exactly a terminal. */
  lemma NullSeedIsTerminal(e: SymbolBindElement)
    requires e.Valid()
    ensures HyposAddr(e.hypos) == 0 <==> !e.word.isNonTerminal
  {
  }

  /** The hash depends on nothing but the identity pair: elements referencing
      the same symbol and the same derivation set hash equal, whatever the
      contents of those objects. */
  lemma HashRespectsIdentity(a: SymbolBindElement, b: SymbolBindElement, ptrHash: Handle -> Handle)
    requires SameIdentity(a, b)
    ensures HashValue(a, ptrHash) == HashValue(b, ptrHash)
  {
  }

  // ------------------------------------------- specification of SymbolBind

  /** The number of non-terminal positions, counted the way SymbolBind::Add
      keeps it: one element at a time at the end. */
  function CountNT(s: seq<SymbolBindElement>): nat
    decreases |s|
  {
    if s == [] then 0
    else CountNT(s[..|s| - 1]) + (if s[|s| - 1].word.isNonTerminal then 1 else 0)
  }

  /** The non-terminal elements of s, in their original order. */
  function NTElements(s: seq<SymbolBindElement>): seq<SymbolBindElement>
    decreases |s|
  {
    if s == [] then []
    else (if s[0].word.isNonTerminal then [s[0]] else []) + NTElements(s[1..])
  }

  /** The positions of the non-terminal elements of s, in increasing order. */
  function NTIndices(s: seq<SymbolBindElement>): seq<nat>
    decreases |s|
  {
    if s == [] then []
    else NTIndices(s[..|s| - 1]) + (if s[|s| - 1].word.isNonTerminal then [|s| - 1] else [])
  }

  predicate AllValid(s: seq<SymbolBindElement>) {
    forall i :: 0 <= i < |s| ==> s[i].Valid()
  }

  /** Selecting non-terminals distributes over concatenation. */
  lemma {:induction false} NTElementsAppend(s: seq<SymbolBindElement>, t: seq<SymbolBindElement>)
    ensures NTElements(s + t) == NTElements(s) + NTElements(t)
    decreases |s|
  {
    if s == [] {
      assert s + t == t;
    } else {
      var head := if s[0].word.isNonTerminal then [s[0]] else [];
      assert (s + t)[0] == s[0];
      assert (s + t)[1..] == s[1..] + t;
      assert NTElements(s + t) == head + NTElements(s[1..] + t);
      NTElementsAppend(s[1..], t);
      assert head + (NTElements(s[1..]) + NTElements(t))
          == (head + NTElements(s[1..])) + NTElements(t);
    }
  }

  /** Appending one element extends the selection by that element exactly
      when it is a non-terminal. */
  lemma NTElementsSnoc(s: seq<SymbolBindElement>, e: SymbolBindElement)
    ensures NTElements(s + [e]) == NTElements(s) + (if e.word.isNonTerminal then [e] else [])
  {
    NTElementsAppend(s, [e]);
    assert NTElements([e]) == (if e.word.isNonTerminal then [e] else []) + NTElements([]);
  }

  /** The running count equals the number of selected elements. */
  lemma {:induction false} NTElementsLength(s: seq<SymbolBindElement>)
    ensures |NTElements(s)| == CountNT(s)
    decreases |s|
  {
    if s != [] {
      var n := |s| - 1;
      assert s == s[..n] + [s[n]];
      NTElementsSnoc(s[..n], s[n]);
      NTElementsLength(s[..n]);
    }
  }

  /** The selection holds only non-terminals, and from a bind whose elements
      keep the binding invariant each of them carries its derivation set. */
  lemma {:induction false} NTElementsAreNonTerminals(s: seq<SymbolBindElement>)
    ensures forall k :: 0 <= k < |NTElements(s)| ==> NTElements(s)[k].word.isNonTerminal
    ensures AllValid(s) ==> forall k :: 0 <= k < |NTElements(s)| ==> NTElements(s)[k].hypos.Some?
    decreases |s|
  {
    if s != [] {
      NTElementsAreNonTerminals(s[1..]);
      assert AllValid(s) ==> AllValid(s[1..]) && s[0].Valid();
    }
  }

  /** The recorded positions lie inside s and strictly increase. */
  lemma {:induction false} NTIndicesIncreasing(s: seq<SymbolBindElement>)
    ensures forall k :: 0 <= k < |NTIndices(s)| ==> NTIndices(s)[k] < |s|
    ensures forall k, k' :: 0 <= k < k' < |NTIndices(s)| ==> NTIndices(s)[k] < NTIndices(s)[k']
    decreases |s|
  {
    if s != [] {
      var n := |s| - 1;
      NTIndicesIncreasing(s[..n]);
    }
  }

  /** A position is recorded exactly when it holds a non-terminal. */
  lemma {:induction false} NTIndicesExact(s: seq<SymbolBindElement>)
    ensures forall i :: 0 <= i < |s| ==> (s[i].word.isNonTerminal <==> i in NTIndices(s))
    decreases |s|
  {
    if s != [] {
      var n := |s| - 1;
      var init := s[..n];
      NTIndicesExact(init);
      NTIndicesIncreasing(init);
      var p := NTIndices(init);
      assert NTIndices(s) == p + (if s[n].word.isNonTerminal then [n] else []);
      assert n !in p;
      forall i | 0 <= i < n
        ensures s[i].word.isNonTerminal <==> i in NTIndices(s)
      {
        assert s[i] == init[i];
      }
    }
  }

  /** The k-th selected element is s at the k-th recorded position. */
  lemma {:induction false} NTElementsAtIndices(s: seq<SymbolBindElement>)
    ensures |NTIndices(s)| == |NTElements(s)|
    ensures forall k :: 0 <= k < |NTIndices(s)| ==>
              NTIndices(s)[k] < |s| && NTElements(s)[k] == s[NTIndices(s)[k]]
    decreases |s|
  {
    NTIndicesIncreasing(s);
    if s != [] {
      var n := |s| - 1;
      var init := s[..n];
      assert s == init + [s[n]];
      NTElementsAtIndices(init);
      NTElementsSnoc(init, s[n]);
      var p, r := NTIndices(init), NTElements(init);
      assert NTIndices(s) == p + (if s[n].word.isNonTerminal then [n] else []);
      assert NTElements(s) == r + (if s[n].word.isNonTerminal then [s[n]] else []);
      forall k | 0 <= k < |p|
        ensures NTElements(s)[k] == s[NTIndices(s)[k]]
      {
        assert NTElements(s)[k] == r[k] == init[p[k]];
      }
    }
  }

  /** The selection is exactly the non-terminal elements of s in their
      original order: its k-th element is s at the k-th index of a strictly
      increasing index sequence that holds every non-terminal position of s
      and no other. */
  lemma NTElementsInOrder(s: seq<SymbolBindElement>)
    ensures |NTIndices(s)| == |NTElements(s)|
    ensures forall k :: 0 <= k < |NTIndices(s)| ==>
              NTIndices(s)[k] < |s| && NTElements(s)[k] == s[NTIndices(s)[k]]
    ensures forall k, k' :: 0 <= k < k' < |NTIndices(s)| ==> NTIndices(s)[k] < NTIndices(s)[k']
    ensures forall i :: 0 <= i < |s| ==> (s[i].word.isNonTerminal <==> i in NTIndices(s))
  {
    NTIndicesIncreasing(s);
    NTIndicesExact(s);
    NTElementsAtIndices(s);
  }

  // ------------------------------------------------ rendering for Debug

  /** What Debug needs to render e: a non-terminal's set is present and
      non-empty, since its first derivation is read. */
  predicate Renderable(e: SymbolBindElement) {
    e.word.isNonTerminal ==> e.hypos.Some? && |e.hypos.value.items| > 0
  }

  predicate AllRenderable(s: seq<SymbolBindElement>) {
    forall i :: 0 <= i < |s| ==> Renderable(s[i])
  }

  /** One element's text: "(", the first derivation's span for a
      non-terminal, the symbol's text, ") ". */
  function Fragment(e: SymbolBindElement, rangeText: Range -> string): string
    requires Renderable(e)
  {
    "(" + (if e.word.isNonTerminal then rangeText(e.hypos.value.items[0].range) else "")
    + e.word.text + ") "
  }

  /** The whole bind's text: its fragments in order. */
  function Render(s: seq<SymbolBindElement>, rangeText: Range -> string): string
    requires AllRenderable(s)
    decreases |s|
  {
    if s == [] then "" else Fragment(s[0], rangeText) + Render(s[1..], rangeText)
  }

  /** Rendering distributes over concatenation, so a bind grown by Add is
      rendered as its old text followed by the new element's fragment. */
  lemma {:induction false} RenderAppend(s: seq<SymbolBindElement>, t: seq<SymbolBindElement>,
                                        rangeText: Range -> string)
    requires AllRenderable(s) && AllRenderable(t)
    ensures AllRenderable(s + t)
    ensures Render(s + t, rangeText) == Render(s, rangeText) + Render(t, rangeText)
    decreases |s|
  {
    assert AllRenderable(s + t) by {
      forall i | 0 <= i < |s + t| ensures Renderable((s + t)[i]) {
        if i < |s| { assert (s + t)[i] == s[i]; } else { assert (s + t)[i] == t[i - |s|]; }
      }
    }
    if s == [] {
      assert s + t == t;
    } else {
      assert (s + t)[1..] == s[1..] + t;
      RenderAppend(s[1..], t, rangeText);
    }
  }

  /** The text is empty exactly for an empty bind; otherwise it opens with
      "(" and closes with ") ". */
  lemma {:induction false} RenderShape(s: seq<SymbolBindElement>, rangeText: Range -> string)
    requires AllRenderable(s)
    ensures Render(s, rangeText) == "" <==> s == []
    ensures s != [] ==> var r := Render(s, rangeText);
              |r| >= 3 * |s| && r[0] == '(' && r[|r| - 2..] == ") "
    decreases |s|
  {
    if s != [] {
      RenderShape(s[1..], rangeText);
      var f, rest := Fragment(s[0], rangeText), Render(s[1..], rangeText);
      assert Render(s, rangeText) == f + rest;
      if rest == [] {
        assert f + rest == f;
      } else {
        assert (f + rest)[|f + rest| - 2..] == rest[|rest| - 2..];
      }
    }
  }
}
